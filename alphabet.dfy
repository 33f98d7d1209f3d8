/**
  The CM6 alphabet: the 64 printable characters that carry one 6-bit digit
  code each, the 256-entry table that maps a byte back to its code, and the
  meaning of the bits of a code.
 */
module Cm6Alphabet {

  /** The forward table: digit code k is written as the character Cm6Table[k].
      The rows follow the layout of the table in the header. */
  const Cm6Table: seq<char> :=
    ['+','-','0','1','2','3','4','5','6','7'] +
    ['8','9','A','B','C','D','E','F','G','H'] +
    ['I','J','K','L','M','N','O','P','Q','R'] +
    ['S','T','U','V','W','X','Y','Z','a','b'] +
    ['c','d','e','f','g','h','i','j','k','l'] +
    ['m','n','o','p','q','r','s','t','u','v'] +
    ['w','x','y','z']

  /** Bit 4 of a digit code: set on the first digit of a negative value. */
  predicate SignBit(c: int) { (c / 16) % 2 == 1 }

  /** Bit 5 of a digit code: set on every digit that is followed by another
      digit of the same value. */
  predicate ContBit(c: int) { (c / 32) % 2 == 1 }

  /** The alphabet is laid out as '+', '-', then '0'-'9', 'A'-'Z', 'a'-'z',
      so a digit code is the index of its character in that order. */
  lemma AlphabetOrder()
    ensures |Cm6Table| == 64
    ensures Cm6Table[0] == '+' && Cm6Table[1] == '-'
    ensures forall k :: 2 <= k < 12 ==> Cm6Table[k] as int == '0' as int + (k - 2)
    ensures forall k :: 12 <= k < 38 ==> Cm6Table[k] as int == 'A' as int + (k - 12)
    ensures forall k :: 38 <= k < 64 ==> Cm6Table[k] as int == 'a' as int + (k - 38)
  {
    forall k | 0 <= k < 64 ensures Cm6Table[k] as int == ByteAt(k) {
      ByteAtIsEntry(k);
    }
  }

  /** Read as byte values the entries strictly increase, from '+' (43) up to
      'z' (122); in particular they are pairwise distinct, and every entry is
      a printable 7-bit character that indexes the 256-entry decode table. */
  lemma AlphabetIncreasing()
    ensures |Cm6Table| == 64
    ensures forall p, q :: 0 <= p < q < 64 ==> Cm6Table[p] < Cm6Table[q]
    ensures forall k :: 0 <= k < 64 ==> 43 <= Cm6Table[k] as int <= 122
  {
    forall p, q | 0 <= p < q < 64 ensures Cm6Table[p] < Cm6Table[q] {
      assert Cm6Table[p] as int == ByteAt(p) && Cm6Table[q] as int == ByteAt(q) by {
        ByteAtIsEntry(p);
        ByteAtIsEntry(q);
      }
    }
    forall k | 0 <= k < 64 ensures 43 <= Cm6Table[k] as int <= 122 {
      ByteAtIsEntry(k);
    }
  }

  lemma AlphabetDistinct()
    ensures |Cm6Table| == 64
    ensures forall p, q :: 0 <= p < 64 && 0 <= q < 64 && p != q ==> Cm6Table[p] != Cm6Table[q]
  {
    AlphabetIncreasing();
    forall p, q | 0 <= p < 64 && 0 <= q < 64 && p != q ensures Cm6Table[p] != Cm6Table[q] {
      if p < q { assert Cm6Table[p] < Cm6Table[q]; } else { assert Cm6Table[q] < Cm6Table[p]; }
    }
  }

  /** The byte value of entry k, by the alphabet's five ranges. */
  function ByteAt(k: int): int
  {
    if k == 0 then 43
    else if k == 1 then 45
    else if k < 12 then 46 + k
    else if k < 38 then 53 + k
    else 59 + k
  }

  lemma ByteAtIsEntry(k: int)
    requires 0 <= k < 64
    ensures Cm6Table[k] as int == ByteAt(k)
  {
    if k < 10 { Row0(); }
    else if k < 20 { Row1(); }
    else if k < 30 { Row2(); }
    else if k < 40 { Row3(); }
    else if k < 50 { Row4(); }
    else if k < 60 { Row5(); }
    else { Row6(); }
  }

  /** ByteAt agrees with each row of the table. */
  lemma Row0()
    ensures |Cm6Table| == 64
    ensures forall k :: 0 <= k < 10 ==> Cm6Table[k] as int == ByteAt(k)
  {
  }

  lemma Row1()
    ensures |Cm6Table| == 64
    ensures forall k :: 10 <= k < 20 ==> Cm6Table[k] as int == ByteAt(k)
  {
  }

  lemma Row2()
    ensures |Cm6Table| == 64
    ensures forall k :: 20 <= k < 30 ==> Cm6Table[k] as int == ByteAt(k)
  {
  }

  lemma Row3()
    ensures |Cm6Table| == 64
    ensures forall k :: 30 <= k < 40 ==> Cm6Table[k] as int == ByteAt(k)
  {
  }

  lemma Row4()
    ensures |Cm6Table| == 64
    ensures forall k :: 40 <= k < 50 ==> Cm6Table[k] as int == ByteAt(k)
  {
  }

  lemma Row5()
    ensures |Cm6Table| == 64
    ensures forall k :: 50 <= k < 60 ==> Cm6Table[k] as int == ByteAt(k)
  {
  }

  lemma Row6()
    ensures |Cm6Table| == 64
    ensures forall k :: 60 <= k < 64 ==> Cm6Table[k] as int == ByteAt(k)
  {
  }

  /** The position of byte b in the alphabet at or after index k, or 0 when
      b does not occur there. */
  function PositionFrom(b: int, k: nat): (c: nat)
    requires k <= 64
    decreases 64 - k
    ensures c < 64
  {
    if k == 64 then 0
    else if Cm6Table[k] as int == b then k
    else PositionFrom(b, k + 1)
  }

  /** The code of byte b: its position in the alphabet, or 0 for a byte
      outside the alphabet. */
  function CodeOf(b: int): nat
  {
    PositionFrom(b, 0)
  }

  /** The 256-entry decode table, indexed by byte value. */
  function DecodeTable(): (t: seq<int>)
    ensures |t| == 256
  {
    seq(256, b => CodeOf(b))
  }

  lemma {:induction false} PositionFound(b: int, k: nat, start: nat)
    requires start <= k < 64 && Cm6Table[k] as int == b
    requires forall q :: start <= q < k ==> Cm6Table[q] as int != b
    decreases k - start
    ensures PositionFrom(b, start) == k
  {
    if start < k {
      PositionFound(b, k, start + 1);
    }
  }

  lemma {:induction false} PositionMissing(b: int, start: nat)
    requires start <= 64
    requires forall q :: start <= q < 64 ==> Cm6Table[q] as int != b
    decreases 64 - start
    ensures PositionFrom(b, start) == 0
  {
    if start < 64 {
      PositionMissing(b, start + 1);
    }
  }

  /** The decode table inverts the forward table: the byte of every digit
      code decodes to that code. */
  lemma TableInverse(k: int)
    requires 0 <= k < 64
    ensures 0 <= Cm6Table[k] as int < 256
    ensures DecodeTable()[Cm6Table[k] as int] == k
  {
    AlphabetIncreasing();
    AlphabetDistinct();
    PositionFound(Cm6Table[k] as int, k, 0);
  }

  /** A 256-entry table that maps the character of every digit code back to
      that code. */
  predicate Inverts(t: seq<int>)
  {
    |t| == 256 && forall k :: 0 <= k < 64 ==> t[Cm6Table[k] as int] == k
  }

  lemma DecodeTableInverts()
    ensures Inverts(DecodeTable())
  {
    forall k | 0 <= k < 64 ensures DecodeTable()[Cm6Table[k] as int] == k {
      TableInverse(k);
    }
  }

  /** Every byte decodes to a 6-bit code. */
  lemma DecodeTableRange(b: int)
    requires 0 <= b < 256
    ensures 0 <= DecodeTable()[b] < 64
  {
  }

  /** Every byte outside the alphabet decodes to code 0. */
  lemma TableOutsideAlphabet(b: int)
    requires 0 <= b < 256
    requires forall k :: 0 <= k < 64 ==> Cm6Table[k] as int != b
    ensures DecodeTable()[b] == 0
  {
    PositionMissing(b, 0);
  }
}

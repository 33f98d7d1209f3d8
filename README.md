# CM6 codec

A Dafny model of the CM6 codec from `src/cm6.c` and `src/cm6.h`. CM6 is a
printable-ASCII encoding of signed 32-bit sample values (GSE/IMS waveform
data). The modelled core is:

- **Alphabet** (`alphabet.dfy`, module `Cm6Alphabet`). This holds the
  64-character table `cm6table` (`+ - 0-9 A-Z a-z`) and the 256-entry decode
  table that unpackcm6 builds from it. A byte outside the alphabet decodes as
  code 0. The module also gives the meaning of bit 4 (sign) and bit 5
  (continuation) of a digit code.
- **Differencing** (`differencing.dfy`, module `Differencing`). It models
  `delta` and `undelta` as in-place array passes, proved against the pure
  `Differences` and `PrefixSums` functions. It also models their D-fold
  iterates and proves that each undoes the other.
- **Encoder** (`encoder.dfy`, module `Cm6Encoder`). It models `packcm6`:
  - ndiff passes of delta;
  - for each value, the width search, the do-while digit loop, clearing the
    last continuation bit and setting the sign bit;
  - the copy through the alphabet onto the end of the output text;
  - undelta, which restores the caller's buffer.

  It is specified by the functions `EncodeValue` (digit codes of one value),
  `Word` (its characters) and `EncodeAll` (the text of a whole buffer).
- **Decoder** (`decoder.dfy`, module `Cm6Decoder`). It models `unpackcm6`:
  - the table scan;
  - the initial capacity (Nreq, or 10);
  - reuse of the caller's buffer, or allocation when it is null;
  - zeroing;
  - the decoding loop, which grows the buffer by ten zeroed slots when it is
    full, stops after Nreq values when Nreq > 0, and handles truncated input
    by shifting the accumulator before the end-of-input check;
  - the final shrink of a buffer it allocated;
  - undelta.

  It is specified by the pure decoder `Decode`.
- **Round trip** (`roundtrip.dfy`, module `Cm6RoundTrip`). Decoding the text
  the encoder writes gives back the encoded values. With the same
  differencing order, the original buffer comes back.
- **Checksum** (`checksum.dfy`, module `Checksum`). It models `gsechksum`,
  the GSETT-3 CHK2 checksum, with C's truncating division written out. It is
  proved against the left fold `Running` and its bounds and congruence.

Values are mathematical integers. The encoder requires every differenced
value to be below 2^29 in magnitude, the range six digits hold. The decoder
takes its input as a string of 7-bit characters.

gsechksum tests `abs(cksum) > MODULO` strictly, so a running sum of
exactly 10^8 is not reduced: gsechksum of `[100000000]` is 100000000
(`Checksum.Examples`).

## Model

| member | source | states |
|---|---|---|
| Cm6Alphabet.AlphabetOrder | src/cm6.h:12-18 | The table has 64 entries: '+' is code 0, '-' is code 1, then '0'-'9', 'A'-'Z' and 'a'-'z' in that order. |
| Cm6Alphabet.AlphabetIncreasing | src/cm6.h:12-18 | As bytes, the table entries strictly increase and lie between '+' (43) and 'z' (122), so each one is a 7-bit index into the decode table. |
| Cm6Alphabet.AlphabetDistinct | src/cm6.h:12-18 | No two digit codes share a character. |
| Cm6Alphabet.DecodeTable | src/cm6.c:204-218 | Entry b of the 256-entry table is the position of byte b in cm6table, or 0 when b is not in the alphabet. |
| Cm6Alphabet.DecodeTableRange | src/cm6.c:204-218 | Every byte decodes to a 6-bit code in 0..63. |
| Cm6Alphabet.TableInverse | src/cm6.c:204-218 | The decode table maps the character of every code k back to k. |
| Cm6Alphabet.DecodeTableInverts | src/cm6.c:204-218 | The decode table is a left inverse of the forward table on all 64 codes. |
| Cm6Alphabet.TableOutsideAlphabet | src/cm6.c:213 | A byte that is not in the alphabet decodes to code 0. |
| Differencing.Differences | src/cm6.c:61-74 | First-order differences: element 0 is kept and element i becomes s[i] - s[i-1] of the input. |
| Differencing.PrefixSums | src/cm6.c:84-93 | Running sums: element i becomes the sum of the first i+1 input elements. |
| Differencing.DeltaN | src/cm6.c:124 | Differences applied ndiff times. |
| Differencing.UndeltaN | src/cm6.c:288 | Running sums applied ndiff times. |
| Differencing.Delta | src/cm6.c:61-74 | One in-place pass leaves a[..n] as the first-order differences of the old contents (the first element is kept) and leaves a[n..] unchanged. |
| Differencing.Undelta | src/cm6.c:84-93 | One in-place pass leaves a[..n] as the running sums of the old contents and leaves a[n..] unchanged. |
| Differencing.DeltaTimes | src/cm6.c:124 | ndiff passes of delta leave a[..n] as the ndiff-fold differences. |
| Differencing.UndeltaTimes | src/cm6.c:288 | ndiff passes of undelta leave a[..n] as the ndiff-fold running sums. |
| Differencing.SumOfDifferences | src/cm6.c:61-93 | The sum of the differences of a non-empty sequence is its last element. |
| Differencing.PrefixSumsOfDifferences | src/cm6.c:61-93 | Running sums undo differencing. |
| Differencing.DifferencesOfPrefixSums | src/cm6.c:61-93 | Differencing undoes running sums. |
| Differencing.FirstUnchanged | src/cm6.c:61-93 | At every order the length is kept and element 0 is never changed. |
| Differencing.ShortUnchanged | src/cm6.c:61-93 | Buffers of length at most one are left as they are at every order. |
| Differencing.UndeltaNDeltaN | src/cm6.c:124-152 | ndiff undelta passes after ndiff delta passes restore the buffer exactly. |
| Differencing.DeltaNUndeltaN | src/cm6.c:124-152 | The same holds in the other order. |
| Cm6Encoder.DigitCount | src/cm6.c:130 | The digit count of a magnitude below 2^29 is the least g in 1..6 with m below 2^(4+5(g-1)). |
| Cm6Encoder.DigitCountTable | src/cm6.c:130 | By range: one digit below 16, two below 2^9, three below 2^14, four below 2^19, five below 2^24, and six beyond. |
| Cm6Encoder.SearchWidth | src/cm6.c:130 | The width loop stops at nbt = 5g-1, where g is the digit count. |
| Cm6Encoder.WriteDigits | src/cm6.c:132-139 | The do-while loop writes exactly g digits: digit q holds five magnitude bits from bit 5(g-1-q), plus the continuation bit. |
| Cm6Encoder.TopDigitSmall | src/cm6.c:133-137 | The first digit of a magnitude that fits its width is below 16, so the sign bit never collides with magnitude bits. |
| Cm6Encoder.DigitCodeLayout | src/cm6.c:137-142 | Every digit code is in 0..63. Its continuation bit is set exactly on non-final digits. The sign bit of the first digit is set exactly for negative values. The low bits are the magnitude bits. |
| Cm6Encoder.EncodeValue | src/cm6.c:128-142 | One value gives DigitCount(\|v\|) 6-bit codes. All but the last carry the continuation bit and the last does not. The sign bit of the first code is set iff v < 0. The first code's low four bits are the top bits of \|v\|. |
| Cm6Encoder.ValueDigits | src/cm6.c:128-142 | After the width search, the digit loop and the two corrections, sub[..k] holds exactly EncodeValue(v). |
| Cm6Encoder.MarkedDigits | src/cm6.c:141-142 | Clearing the last digit's continuation bit and setting the first digit's sign bit turns the raw digits into EncodeValue(v). |
| Cm6Encoder.AppendDigits | src/cm6.c:147 | The copy loop appends the characters of the k codes, in order. |
| Cm6Encoder.AppendValues | src/cm6.c:126-150 | The per-value loop appends the text of every value of the buffer, in order, after the existing text. |
| Cm6Encoder.PackCm6 | src/cm6.c:116-155 | The output is the existing text followed by the text of the ndiff-fold differences of the buffer. The caller's buffer ends exactly as it started. |
| Cm6Encoder.Word | src/cm6.c:128-147 | The one to six characters written for one value: cm6table of each of its digit codes. |
| Cm6Encoder.EncodeAll | src/cm6.c:126-150 | The text written for a buffer: the words of its values, one after the other, in order. |
| Cm6Encoder.AppendValue | src/cm6.c:128-149 | One turn of the per-value loop appends exactly the word of the value. |
| Cm6Encoder.AppendNext | src/cm6.c:144-149 | Appending the word of value i to the text of the values before it gives the text of the values up to i. |
| Cm6Encoder.WordInAlphabet | src/cm6.c:147 | Every character written for a value is in the alphabet. |
| Cm6Encoder.EncodeAllLength | src/cm6.c:126-150 | Each value takes one to six characters, so the text is between \|t\| and 6\|t\| characters long. |
| Cm6Encoder.EncodeAllInAlphabet | src/cm6.c:147 | Only alphabet characters are written. |
| Cm6Encoder.EncodeAllSnoc | src/cm6.c:144-149 | Each turn of the loop appends exactly the word of the next value. |
| Cm6Encoder.EncodeAllCons | src/cm6.c:126-150 | The text of a non-empty buffer is the word of its first value followed by the text of the rest. |
| Cm6Encoder.EncodeAllDigitTotal | src/cm6.c:149 | *Ncm6 grows by the total digit count of all values. |
| Cm6Encoder.ZeroIsPlus | src/cm6.c:128-147 | The value 0 is written as the single character '+'. |
| Cm6Encoder.WidthIsDigitCount | src/cm6.c:130 | The width where the search stops (the cap of 6, or the first width that fits) is DigitCount. |
| Cm6Decoder.Tail | src/cm6.c:256-270 | The continuation loop stays within the input. A truncated read ends exactly at the end of the input. |
| Cm6Decoder.ReadValue | src/cm6.c:250-272 | Reading one value consumes at least one character and stays within the input. A truncation happens only at its end. |
| Cm6Decoder.DecodeFrom | src/cm6.c:234-273 | The decoding loop from character j with i values already produced: it reads one value at a time until the input ends, or until Nreq values exist when Nreq > 0. It collects the values and whether any of them was truncated. |
| Cm6Decoder.Decode | src/cm6.c:234-273 | The raw values unpackcm6 decodes from the whole stream through the decode table, with the truncation warning. |
| Cm6Decoder.DecodeLength | src/cm6.c:234-273 | Each value uses at least one character. With Nreq > 0 at most Nreq values are produced. No value is produced exactly when the loop stops at once. |
| Cm6Decoder.DecodeSize | src/cm6.c:234-276 | *Nint is at most the number of characters, and at most Nreq when Nreq > 0. It is 0 exactly for empty input. |
| Cm6Decoder.TerminalsSplit | src/cm6.c:234-273 | Counts of characters with the continuation bit clear add up over adjacent ranges. |
| Cm6Decoder.TailShape | src/cm6.c:256-270 | A continuation run ends at the first character whose continuation bit is clear, or at the end of input when it is truncated. |
| Cm6Decoder.ReadValueShape | src/cm6.c:250-272 | One value spans exactly one character with the continuation bit clear, its last, unless it is truncated. A value is truncated iff its last character has the continuation bit set. |
| Cm6Decoder.DecodeCount | src/cm6.c:234-273 | With Nreq <= 0, there is one value per character with a clear continuation bit, plus one if the last character has it set. The truncation warning is raised exactly in that last case. |
| Cm6Decoder.DecodeBounded | src/cm6.c:236 | With Nreq > 0, the result is the first Nreq values of the unbounded decoding, or all of them if there are fewer. It is truncated iff the truncated value is among those read. |
| Cm6Decoder.ScanAssignsCode | src/cm6.c:204-218 | The ascending scan gives each alphabet byte the number of alphabet bytes below it, which is its position in cm6table. It gives every other byte 0. |
| Cm6Decoder.BuildTable | src/cm6.c:204-218 | The scan builds exactly the decode table. |
| Cm6Decoder.ReadOne | src/cm6.c:250-272 | The loop body decodes the value, the next position and the truncation flag that ReadValue says. |
| Cm6Decoder.Grow | src/cm6.c:239-247 | The buffer grows by ten slots: old contents are kept and the new slots are zero. |
| Cm6Decoder.Store | src/cm6.c:239-254 | Value i is stored after growing a full buffer. Later slots stay zero. |
| Cm6Decoder.Shrink | src/cm6.c:279-283 | The buffer is cut to exactly n slots. |
| Cm6Decoder.Fill | src/cm6.c:234-276 | The loop stores the decoded values and reports the truncation flag. The unused capacity stays zero. Growth happens only if Nreq <= 0 and more than the initial capacity is needed. |
| Cm6Decoder.DecodeInto | src/cm6.c:204-283 | The output buffer holds the decoded values. It is a new buffer of exactly that length if the function allocated it, and the caller's buffer otherwise, zero past the values. |
| Cm6Decoder.UnpackCm6 | src/cm6.c:183-290 | The first *Nint entries are the ndiff-fold running sums of the decoded values. The truncation and short-count warnings are raised exactly when their conditions hold. The buffer is new and exactly *Nint long when the function allocated or grew it. |
| Cm6RoundTrip.CodesRead | src/cm6.c:250-253 | Through the decode table, every written character gives back its digit code. |
| Cm6RoundTrip.NextAccumulator | src/cm6.c:256-270 | Adding the next digit of an encoded value to the accumulator gives the magnitude above the following digit, or the whole magnitude after the last digit. Only the last digit has the continuation bit clear. |
| Cm6RoundTrip.TailEncoded | src/cm6.c:256-270 | For the continuation digits of an encoded value, the accumulation loop rebuilds the magnitude and stops just after the last digit. |
| Cm6RoundTrip.ReadValueEncoded | src/cm6.c:250-272 | Reading at the start of a value's word gives the value back and moves just past the word, without truncation. |
| Cm6RoundTrip.EncodedSevenBit | src/cm6.c:147 | Encoded text is made of 7-bit characters. |
| Cm6RoundTrip.DecodeEncodeAll | src/cm6.c:234-273 | Decoding an encoded suffix to its end gives exactly the encoded values, with no truncation. |
| Cm6RoundTrip.DecodeOfEncode | src/cm6.c:234-273 | Decoding the text of vs gives vs, or its first Nreq values when 0 < Nreq < \|vs\|, and never a truncation warning. |
| Cm6RoundTrip.RoundTrip | src/cm6.c:116-290 | Encoding with ndiff and decoding with the same ndiff gives back the original buffer, for Nreq <= 0 or Nreq >= its length. |
| Cm6RoundTrip.SmallValues | src/cm6.c:128-147 | 5 is written as "3" and -5 as "J". |
| Cm6RoundTrip.SmallStream | src/cm6.c:234-273 | "3J+" decodes to 5, -5, 0. |
| Checksum.TruncDiv | src/cm6.c:314 | C's `/` by a positive divisor truncates toward zero: the magnitude of the quotient is \|x\| / d, with the sign of x. |
| Checksum.Reduce | src/cm6.c:314 | The truncating remainder keeps the sign of x, is below 10^8 in magnitude, differs from x by a multiple of 10^8, and leaves smaller values as they are. |
| Checksum.Step | src/cm6.c:314-320 | One turn of the loop keeps an accumulator within 10^8 in magnitude and changes ck + v only by a multiple of 10^8. |
| Checksum.Running | src/cm6.c:312-321 | The accumulator cksum after the values of s, one Step per value from 0. |
| Checksum.Chk2 | src/cm6.c:323 | The checksum is the magnitude of the final accumulator. |
| Checksum.StepBounds | src/cm6.c:312-321 | One turn keeps the accumulator within 10^8 in magnitude. The partial sum stays within 2*10^8, inside int32_t. |
| Checksum.RunningBound | src/cm6.c:312-321 | The accumulator never exceeds 10^8 in magnitude. |
| Checksum.Chk2Range | src/cm6.c:323 | The checksum lies in [0, 10^8]. |
| Checksum.RunningCongruent | src/cm6.c:312-321 | The accumulator agrees with the exact sum modulo 10^8. |
| Checksum.NoReduction | src/cm6.c:312-323 | When no value and no partial sum exceeds 10^8 in magnitude, the checksum is the magnitude of the sum. |
| Checksum.Examples | src/cm6.c:312-323 | The checksums of [1,2,3,4,5], [10^8], [10^8, 1] and [-150000000, 10] are 15, 10^8, 1 and 49999990. Reduce(-150000000) is -50000000, not a floored +50000000. |
| Checksum.GseChecksum | src/cm6.c:305-324 | The loop returns Chk2 of the buffer, which lies in [0, 10^8]. |

## Left out

- Allocation failure is not modelled. A `realloc`/`malloc` that returns NULL makes packcm6 and unpackcm6 return NULL, and packcm6 then leaves the caller's buffer differenced.
- `realloc` is modelled as a fresh array holding the old contents. The model therefore says nothing about the old pointer being freed or moved.
- When unpackcm6 allocated its buffer and decodes 0 values, it calls `realloc` with size 0, whose result is implementation-defined. The model returns an empty array.
- The output text of packcm6 is a `seq<char>`, not a growable C buffer, and the extra terminator slot of the `realloc` is not modelled.
- Cm6Encoder.PackCm6: requires every differenced value to be below 2^29 in magnitude. Beyond that the width search stops at six digits. The first digit then takes more than four bits and collides with the sign bit, so the text does not decode to the value.
- Differencing.Delta, Differencing.Undelta: int32_t wrap-around of the differences and sums is not modelled.
- Cm6Decoder.UnpackCm6: int32_t wrap-around of the accumulator on over-long continuation runs is not modelled.
- delta reads intbuf[0] and intbuf[1] before its loop even when Nint < 2 (out of bounds for an empty or one-element buffer). The reads do not affect the result, and the model has no such read.
- Cm6Decoder.UnpackCm6: requires every input byte to be below 128. In C the `char` index into the table would be negative for higher bytes. An undefined read is not modelled.
- Cm6Decoder.UnpackCm6: requires a caller-supplied buffer to hold at least Nreq slots (10 when Nreq <= 0), because the `memset` at src/cm6.c:232 writes that many. The source assumes this and does not check it, and its own caller can break it. src/gse2mseed.c:267 passes back the buffer from the previous block, which may have been shrunk to fewer than 10 values at src/cm6.c:281 or sized to the sample count at src/gse2mseed.c:387.
- The decode table is recomputed on every call. The static `tablecalculated` caching only avoids repeating the same scan.
- ndiff is a natural number. In packcm6 a negative ndiff runs no delta and no undelta pass (src/cm6.c:124, 152), which the model can express only as ndiff = 0. In unpackcm6, `while (ndiff--)` counts a negative ndiff down through int32_t wrap-around, and this is not modelled.
- Checksum.GseChecksum: requires values that are int32_t and not INT32_MIN, since `abs(INT32_MIN)` is undefined in C.
- The `fprintf` warnings of unpackcm6 are modelled as the boolean results `truncated` and `short`. The message text and stderr output are not modelled.
- `src/gse2mseed.c` (container parsing, command-line handling, miniSEED output) is not part of this model.

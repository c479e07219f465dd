# Verified cores of the engine

Four independent parts of the engine are modelled here, each with the specification it has to meet and proofs that it
does. `dafny verify dfyconfig.toml` checks everything.

**Number parsing** (`dascript/include/fast_float/fast_float.h`; `Bits`, `Limbs`, `BigInts`, `Ieee`, `DigitComparison`,
`Decimal`, `Swar`, `NumberScanner`, `Grammar`, `MantissaParser`, `SlowPath`, `Exponents`, `Estimates`, `FromChars`,
`IntScanner`). The specification is exact integers: a limb vector stands for the sum of its limbs times powers of
2^64, a digit string for its decimal number, and a non-negative float is its bit pattern read as a number, so that
consecutive floats are consecutive numbers. `Ieee.IsNearest` is roundTiesToEven of IEEE 754-2008, section 4.3.1, on
the encoding of section 3.4, stated without reference to any algorithm. Everything is parametric in the format;
`BINARY64` and `BINARY32` hold the published constants. `SlowPath.DigitComp` is the main result: for a number with any
count of digits the slow path returns the correctly rounded float, also when digits behind the 769th (114th) are
dropped, because no halfway point lies strictly between two neighbouring decimals of that many digits; every product
fits the 62 limbs, so none of the asserted results is ever false. `FromChars.FromCharsAdvanced` carries this from the
text to the word. Two facts about the fast path are assumed there and spelled out as predicates: `compute_float`
rounds correctly (`Rounds`), and `compute_error` is off by no more than four units in the last of its 64 bits
(`Approximates`). That such an approximation decides every number beginning with the same nineteen digits, and is
finite and in the range of exponents whenever it is used, is proved (`Estimates`, `ErrorDecides`). The scanner stops
accumulating an explicit exponent at 0x10000000. `Exponents.AllRightIff` says for which texts that goes unnoticed:
those at least 324 digits (46 for binary32) shorter than this; `FarMisread` has the text that is one digit longer.
`Grammar` builds texts from their parts, in literal characters: exactly these are accepted (`WellFormedIff`), and they
are read as what they were built from (`Reading`). The integer scanner is proved to return every numeral in range
exactly, spelled in small or capital letters; its overflow check is incomplete for some bases, and
`IntScanner.SoundIff` says for exactly which bases and types.

**Hash map** (`dascript/include/das_hash_map/das_hash_map.h`; `HashTable`, `HashMapLaws`, `HashMap`). The class in
`HashMap` changes three sequences and two counters in place; each method is proved equal to a function on table
values, and the laws are about these functions. For every hasher the counters are exact, a quarter of the slots is
EMPTY and every probe ends. The table answers every sequence of operations as a mathematical map does exactly when the
hasher never returns 0 or 1 (`LikeAMapIff`): a key with such a hash is found until the next rehash, which moves it to
the slot of the remapped hash, while find starts at the slot of the raw one. The default hashers do return these
values (`DefaultHashers`). `daslang_hash_set` is the same table without values.

**Table schema compiler** (`tools/tablegen`; `Graphs`, `SchemaLibrary`, `Validator`, `Layouts`, `Codegen`,
`Defaults`). `Graphs` has the theory of the depth-first traversals the compiler uses: visiting with a stack, postorder
and preorder. Validation succeeds exactly on libraries whose checks hold and whose structs do not contain themselves.
Laying out a library, validated or not, succeeds exactly when every type is known and no row contains itself, and the
memo then holds the recursive specification. Sizes are computed in 32 bits; they are exact exactly for rows below 2^32
bytes (`RowExactIff`), and then all scalars at every depth are aligned and apart. The generator's second computation
of offsets agrees. Two traversals look up every type name, also those of scalars. With a struct named like a scalar
type the declarations can come out in the wrong order (`StructNamedInt`); `TopologicalIff` gives the exact condition
under which they come out right for every order of the input.

**Snake** (`examples/snake/snake.cpp`; `Snake`). A state machine on integer cells and real time, its invariant over
every run, and the class whose methods take its steps. The search for a new apple begins only when a free cell exists.
An accepted key makes the next move due at once, so no run ever turns the snake onto its neck (`NeverOntoNeck`), and a
game ends only at the border or at a part of the body other than the neck and the tail (`HowGamesEnd`).

`Wrappers` and `Collections` hold what the parts share.

Words are natural numbers; wrap-around, shifts and masks are written out (`% BASE`, `Shl`, `And`). Long functions of
the original are split into several methods at their comments' seams. Reference parameters that a function restores or
appends to are passed in and out. Pointers into a text are indices.

## Model

| member | source | states |
|---|---|---|
| Limbs.Umul128Generic | dascript/include/fast_float/fast_float.h:425-434 | the two words are the full 128-bit product, although every partial sum wraps |
| Limbs.ScalarAdd | dascript/include/fast_float/fast_float.h:2589-2605 | wrapped sum and carry together are the sum |
| Limbs.ScalarMul | dascript/include/fast_float/fast_float.h:2609-2631 | low word and carry together are x*y+carry: no carry is lost |
| Limbs.LeadingZeroesGeneric | dascript/include/fast_float/fast_float.h:387-395 | 64 minus the bit length of any nonzero word |
| BigInts.SmallPower | dascript/include/fast_float/fast_float.h:2756-2763 | every entry of the table is 5 to the power of its index |
| BigInts.LargePower | dascript/include/fast_float/fast_float.h:2765-2767 | the five limbs are 5^135 |
| BigInts.BigInt.TryPush | dascript/include/fast_float/fast_float.h:2471-2478 | appends exactly when there is room, otherwise changes nothing |
| BigInts.BigInt.TryExtend | dascript/include/fast_float/fast_float.h:2486-2494 | appends all limbs exactly when they fit, otherwise none |
| BigInts.BigInt.TryResize | dascript/include/fast_float/fast_float.h:2496-2519 | grows with the value or cuts; fails exactly beyond the capacity |
| BigInts.BigInt.Nonzero | dascript/include/fast_float/fast_float.h:2521-2529 | tells whether the limbs below the given ones are worth anything; beyond the length there are none |
| BigInts.BigInt.Normalize | dascript/include/fast_float/fast_float.h:2531-2535 | drops top zero limbs and keeps the number |
| BigInts.BigInt.SmallAddFrom | dascript/include/fast_float/fast_float.h:2637-2652 | adds y*2^(64*start), a start beyond the end counting as the end; succeeds exactly when the sum fits, and is the sum modulo the capacity otherwise |
| BigInts.BigInt.SmallMul | dascript/include/fast_float/fast_float.h:2662-2673 | multiplies by a limb; succeeds exactly when the product fits |
| BigInts.BigInt.LargeAddFrom | dascript/include/fast_float/fast_float.h:2677-2706 | adds y shifted by whole limbs; fails only when the sum or the shifted length does not fit |
| BigInts.BigInt.LongMul | dascript/include/fast_float/fast_float.h:2715-2742 | the product of two limb vectors, normalized; fails only when the product does not fit |
| BigInts.BigInt.LargeMul | dascript/include/fast_float/fast_float.h:2744-2751 | the product whenever it reports success, which for a normalized positive number is exactly when the product fits; zero and the empty multiplier included |
| BigInts.BigInt.Hi64 | dascript/include/fast_float/fast_float.h:2810-2820 | the leading 64 bits, left-aligned, and whether a lower bit is set |
| BigInts.BigInt.Compare | dascript/include/fast_float/fast_float.h:2842-2859 | the sign of the numbers' difference |
| BigInts.BigInt.ShlBits | dascript/include/fast_float/fast_float.h:2863-2887 | multiplies by 2^n for n below 64; succeeds exactly when the product fits |
| BigInts.BigInt.ShlLimbs | dascript/include/fast_float/fast_float.h:2889-2908 | multiplies by 2^(64n); succeeds exactly when the limbs fit |
| BigInts.BigInt.Shl | dascript/include/fast_float/fast_float.h:2910-2921 | multiplies by 2^n; succeeds exactly when the product fits, and for zero exactly when n does not move by more limbs than there are |
| BigInts.BigInt.NumBits | dascript/include/fast_float/fast_float.h:2923-2941 | the bit length of the number |
| BigInts.BigInt.Pow5 | dascript/include/fast_float/fast_float.h:2957-2987 | multiplies by 5^n for every n; succeeds exactly when the product fits |
| BigInts.BigInt.Pow10 | dascript/include/fast_float/fast_float.h:2989-2992 | multiplies by 10^n for every n; succeeds exactly when the product fits, with the same exception for zero |
| BigInts.BigInt.AddNative | dascript/include/fast_float/fast_float.h:3219-3222 | multiplies and adds, modulo the capacity when the unreported result does not fit |
| Ieee.HalfwayDecides | dascript/include/fast_float/fast_float.h:3366-3381 | rounding a number close to two floats is deciding by their halfway point, ties by the even pattern |
| Ieee.KnownDoubles | dascript/include/fast_float/fast_float.h:3042-3083 | 2^k has the bit pattern 2^52 * (k + 1023), for every normal k |
| Ieee.KnownFloats | dascript/include/fast_float/fast_float.h:3042-3083 | and 2^23 * (k + 127) in single precision |
| DigitComparison.TieEvenShape | dascript/include/fast_float/fast_float.h:3116-3141 | the three tests compare exactly the dropped bits with their highest one, for every shift from 1 to 64 |
| DigitComparison.Round | dascript/include/fast_float/fast_float.h:3086-3114 | the float at or below, or its successor when rounding up, never past infinity; subnormals and carries included |
| DigitComparison.HalfwayUnits | dascript/include/fast_float/fast_float.h:3042-3083 | the extended halfway point is half the sum of a float and its successor |
| DigitComparison.IntegerRounds | dascript/include/fast_float/fast_float.h:3319-3328 | the callback of positive_digit_comp is round-to-nearest-even, overflow included |
| DigitComparison.PositiveDigitComp | dascript/include/fast_float/fast_float.h:3314-3331 | m*10^e is correctly rounded whenever the product fits |
| DigitComparison.ScaledOrder | dascript/include/fast_float/fast_float.h:3333-3364 | after scaling by powers of five and two the comparison is that of m*10^e with the halfway point |
| DigitComparison.ScaleSides | dascript/include/fast_float/fast_float.h:3352-3364 | both sides are scaled without overflow |
| DigitComparison.NegativeDigitComp | dascript/include/fast_float/fast_float.h:3338-3384 | m*10^e with a negative e is correctly rounded, given an estimate that is close |
| Swar.EightDigitsTest | dascript/include/fast_float/fast_float.h:1112-1117 | the word test holds exactly when all eight bytes are digits |
| Swar.EightDigitsValue | dascript/include/fast_float/fast_float.h:1089-1101 | for eight digits the word arithmetic is their decimal value |
| Swar.LoopParseIfEightDigits | dascript/include/fast_float/fast_float.h:1191-1198 | consumes only digits, accumulates them modulo 2^64, and goes on as long as eight more are there |
| NumberScanner.FractionLoop | dascript/include/fast_float/fast_float.h:1272-1284 | eight digits at a time and one by one together read the whole run of digits, modulo 2^64 |
| NumberScanner.ExponentPart | dascript/include/fast_float/fast_float.h:1295-1335 | accepts the optional exponent exactly as the grammar says and reads it |
| NumberScanner.SaturatingExact | dascript/include/fast_float/fast_float.h:1322-1329 | the accumulated exponent is the one written exactly below ten times the cap, and what is at least the cap is never read as less |
| NumberScanner.SkipLeading | dascript/include/fast_float/fast_float.h:1346-1353 | what remains is the number of significant digits, wherever the point is |
| NumberScanner.StartAgain | dascript/include/fast_float/fast_float.h:1355-1380 | the first nineteen significant digits and their exponent, this time without wrapping |
| NumberScanner.ScannedBrackets | dascript/include/fast_float/fast_float.h:1336-1385 | the number lies from mantissa*10^exponent up to one more in the last place, and equals it with at most nineteen digits |
| NumberScanner.ParseNumberString | dascript/include/fast_float/fast_float.h:1217-1386 | valid exactly for the grammar's texts, with the right parts, end, sign, mantissa and accumulated exponent, despite wrap-around in the first pass |
| Grammar.Reading | dascript/include/fast_float/fast_float.h:1217-1345 | a text built from sign, digits, point, digits and exponent (mark, sign, digits) and any rest that does not continue it is read as these parts and ends where they end; it is accepted exactly under the options that admit it |
| Grammar.WellFormedIff | dascript/include/fast_float/fast_float.h:1217-1345 | no other text is accepted |
| Grammar.PowerIff | dascript/include/fast_float/fast_float.h:1296-1320 | an exponent is found exactly where a mark that the options admit, an optional plus or minus and a digit stand |
| Exponents.UnnoticedIsRight | dascript/include/fast_float/fast_float.h:1322-1329 | where the exponent is below ten times the cap, or the digits are few enough, correct rounding for the accumulated exponent is correct rounding for the written one |
| Exponents.AllRightIff | dascript/include/fast_float/fast_float.h:1322-1329 | all texts of up to that many digits are read right exactly when they are z digits shorter than the cap, 10^-z being the largest power of ten that rounds to zero |
| Exponents.FarMisread | dascript/include/fast_float/fast_float.h:1322-1329 | a nine with zeros and exponent -2684354560, one digit too long: read as a number other than zero |
| Exponents.BothEdges | dascript/include/fast_float/fast_float.h:684-699 | z is 324 for binary64 and 46 for binary32 |
| MantissaParser.SkipZeros | dascript/include/fast_float/fast_float.h:3152-3170 | stops at the first byte that is not a zero digit |
| MantissaParser.IsTruncated | dascript/include/fast_float/fast_float.h:3172-3197 | true exactly when a byte is not a zero digit |
| MantissaParser.ParseBatch | dascript/include/fast_float/fast_float.h:3254-3259 | reads up to nineteen digits exactly, without wrapping |
| MantissaParser.ParseMantissa | dascript/include/fast_float/fast_float.h:3232-3312 | all significant digits, or the first max_digits with a 1 appended when a nonzero digit is dropped |
| MantissaParser.RoundUp | dascript/include/fast_float/fast_float.h:3224-3230 | appends the digit 1 exactly when something nonzero is lost |
| MantissaParser.ScientificExponent | dascript/include/fast_float/fast_float.h:3017-3039 | the exponent of the leading digit |
| SlowPath.BothReady | dascript/include/fast_float/fast_float.h:603-706 | the published digit counts and exponent ranges of both formats are sufficient |
| SlowPath.KeptExactly | dascript/include/fast_float/fast_float.h:3406-3411 | when only zeros are dropped, the big integer times its power of ten is the number |
| SlowPath.KeptStrictly | dascript/include/fast_float/fast_float.h:3224-3230 | otherwise number and big integer lie strictly between the kept digits and their successor |
| SlowPath.NothingBetween | dascript/include/fast_float/fast_float.h:701-706 | no float and no halfway point lies strictly between neighbouring decimals of max_digits digits |
| SlowPath.KeptSide | dascript/include/fast_float/fast_float.h:3386-3398 | the kept digits are on the same side of every float and halfway point as all digits |
| SlowPath.SidesWithin | dascript/include/fast_float/fast_float.h:3355-3364 | both sides of the comparison fit 62 limbs: the asserted operations succeed |
| SlowPath.ScientificPlace | dascript/include/fast_float/fast_float.h:3405-3411 | the exponent given to the big integer belongs to its last digit |
| SlowPath.DigitComp | dascript/include/fast_float/fast_float.h:3386-3417 | the correctly rounded value of all digits, however many |
| Ieee.UnderflowIff | dascript/include/fast_float/fast_float.h:2287-2292 | a number rounds to zero exactly when it is at most half the smallest float |
| Estimates.OutsideAgrees | dascript/include/fast_float/fast_float.h:2287-2298 | outside the published range of exponents nineteen digits are zero or infinite for certain |
| Estimates.BothTuned | dascript/include/fast_float/fast_float.h:684-699 | the published constants of both formats meet all that is asked of them |
| Estimates.WithinDecides | dascript/include/fast_float/fast_float.h:2258-2276 | an extended float within four units in its last place lies close enough to every number that begins with the nineteen digits it stands for |
| FromChars.ErrorDecides | dascript/include/fast_float/fast_float.h:3680-3685 | when the fast answers for w and w+1 differ, the approximation is finite, in range, and decides |
| FromChars.NearestPrefix | dascript/include/fast_float/fast_float.h:3680-3685 | when w and w+1 round alike, so does every number that begins with w |
| FromChars.Convert | dascript/include/fast_float/fast_float.h:3679-3688 | fast path, its check against the next mantissa and the slow path together round correctly |
| FromChars.WordFields | dascript/include/fast_float/fast_float.h:3689-3693 | zero and infinity are recognized from the fields, also after a carry out of the subnormals |
| FromChars.FromCharsAdvanced | dascript/include/fast_float/fast_float.h:3609-3695 | for every text: rejected exactly when no number is spelled; else its end, its sign and the correctly rounded word of the number written wherever the cap goes unnoticed, of the number with the accumulated exponent everywhere; out of range exactly when infinite or a nonzero rounded to zero |
| IntScanner.Tables | dascript/include/fast_float/fast_float.h:856-894 | all 35 rows: the largest digit count of 64 bits, and the smallest number with that many digits |
| IntScanner.DigitCount | dascript/include/fast_float/fast_float.h:1449-1459 | the number of significant digits tells on which side of these bounds a number lies |
| IntScanner.NegatedExactly | dascript/include/fast_float/fast_float.h:1470-1482 | the negation through two narrowing conversions is exact, the smallest value included |
| IntScanner.CheckedValue | dascript/include/fast_float/fast_float.h:1449-1487 | the three overflow checks report out of range exactly when the number is and the wrap shows; otherwise the value is exact |
| IntScanner.ParseIntString | dascript/include/fast_float/fast_float.h:1388-1487 | invalid exactly without digits or with a sign on an unsigned type; out of range exactly when it does not fit and the wrap shows |
| IntScanner.InRangeIsExact | dascript/include/fast_float/fast_float.h:1449-1467 | a number in range is never in the blind spot of the check |
| IntScanner.SoundIff | dascript/include/fast_float/fast_float.h:1454-1467 | no text is misread exactly when wrapping once cannot lead back into the accepted range, base by base and type by type |
| IntScanner.DecimalMisread | dascript/include/fast_float/fast_float.h:1456-1459 | a decimal text that is accepted with a wrong value |
| IntScanner.CharacterIs | dascript/include/fast_float/fast_float.h:837-854 | a byte is worth a digit exactly when it is that digit's character in the small or the capital alphabet |
| IntScanner.OtherBytes | dascript/include/fast_float/fast_float.h:837-854 | any other byte is no digit in any base |
| IntScanner.SaidIsNumeral | dascript/include/fast_float/fast_float.h:1418-1440 | characters of digits, in small or capital letters, are read as the digits' positional value up to the first byte that is no digit |
| IntScanner.WrittenText | dascript/include/fast_float/fast_float.h:1418-1440 | every number is so written in every base |
| IntScanner.FromCharsInt | dascript/include/fast_float/fast_float.h:3700-3715 | answers exactly the texts that spell a number; every number in the type's range is returned exactly, with its end, and every out-of-range report is justified |
| HashTable.QuarterEmpty | dascript/include/das_hash_map/das_hash_map.h:499-503 | at least a quarter of the slots is EMPTY in every reachable state |
| HashTable.ProbeStops | dascript/include/das_hash_map/das_hash_map.h:486-493 | a probe ends within one lap, at the first match or EMPTY slot |
| HashTable.FindCorrect | dascript/include/das_hash_map/das_hash_map.h:478-494 | find returns the key's live slot, and none exactly when there is none |
| HashTable.PlaceCorrect | dascript/include/das_hash_map/das_hash_map.h:504-526 | the slot for a new key is a tombstone or EMPTY slot that probes for it reach |
| HashTable.RehashCounted | dascript/include/das_hash_map/das_hash_map.h:548-569 | after a rehash the counters are exact, no tombstone is left and unused slots hold defaults, for every hasher |
| HashTable.RehashGood | dascript/include/das_hash_map/das_hash_map.h:548-569 | with plain keys a rehash keeps the map and leaves every key where probes find it |
| HashTable.PreparedCounted | dascript/include/das_hash_map/das_hash_map.h:501-502 | after growing or rehashing there is room for one more entry below both thresholds |
| HashTable.ReserveCounted | dascript/include/das_hash_map/das_hash_map.h:499-527 | a new slot holds the default value, and the counters stay exact |
| HashTable.ReserveGood | dascript/include/das_hash_map/das_hash_map.h:499-527 | adds exactly an absent key, tombstone reuse included |
| HashTable.KillGood | dascript/include/das_hash_map/das_hash_map.h:529-538 | erasing removes exactly that key and opens no gap for others |
| HashTable.ReserveKeeps | dascript/include/das_hash_map/das_hash_map.h:347-352 | reserve keeps the map |
| HashMapLaws.StepCounted | dascript/include/das_hash_map/das_hash_map.h:347-569 | every operation, filtering by an iterator included, keeps the counting invariant, whatever the hasher |
| HashMapLaws.StepAgrees | dascript/include/das_hash_map/das_hash_map.h:347-569 | every operation on plain keys acts and answers as on a map |
| HashMapLaws.IndexingAgrees | dascript/include/das_hash_map/das_hash_map.h:405-412 | operator[] on an absent key yields the default value |
| HashMapLaws.AddingAgrees | dascript/include/das_hash_map/das_hash_map.h:417-447 | inserting adds exactly an absent key, and the iterator returned stands on the key and its value in the map |
| HashMapLaws.InsertCounted | dascript/include/das_hash_map/das_hash_map.h:417-447 | for every hasher the iterator returned stands on a live entry of the key |
| HashMapLaws.RunAgrees | dascript/include/das_hash_map/das_hash_map.h:383-569 | every run whose keys do not hash to a mark answers as a map does |
| HashMapLaws.LikeAMapIff | dascript/include/das_hash_map/das_hash_map.h:50-57 | the table is a map for all runs exactly when the hasher never returns 0 or 1 |
| HashMapLaws.LostKey | dascript/include/das_hash_map/das_hash_map.h:548-569 | any key with hash 0 or 1 is lost by insert, reserve(8), find |
| HashMapLaws.IntegralMarks | dascript/include/das_hash_map/das_hash_map.h:138-143 | among 64-bit integers -1 and -2 are the keys whose hash is a mark |
| HashMapLaws.PointerMarks | dascript/include/das_hash_map/das_hash_map.h:153-159 | among 64-bit pointers just those to the first sixteen bytes hash to a mark |
| HashMapLaws.DefaultHashers | dascript/include/das_hash_map/das_hash_map.h:138-159 | neither default hasher, for integers or for pointers, makes a map |
| HashMapLaws.WalkAll | dascript/include/das_hash_map/das_hash_map.h:278-284 | iteration visits each live slot once, in order, and no other |
| HashMapLaws.EraseWhereCorrect | dascript/include/das_hash_map/das_hash_map.h:452-462 | erasing while iterating sees every original entry once and leaves the filtered map |
| HashMapLaws.ReservedStays | dascript/include/das_hash_map/das_hash_map.h:347-352 | after reserve(n) without tombstones, inserting up to n entries moves none |
| HashMapLaws.InsertKeepsSlots | dascript/include/das_hash_map/das_hash_map.h:499-503 | below half load and with tombstones in at most half of the rest, inserting moves no entry |
| HashMapLaws.HalfFullRehashes | dascript/include/das_hash_map/das_hash_map.h:501-501 | at half load even inserting a present key, which leaves the map as it is, rehashes into twice the capacity |
| HashMap.HashMap.FindIndex | dascript/include/das_hash_map/das_hash_map.h:478-494 | the loop ends and computes the specified probe |
| HashMap.HashMap.ReserveSlot | dascript/include/das_hash_map/das_hash_map.h:499-527 | computes the specified table, slot and outcome |
| HashMap.HashMap.RehashInto | dascript/include/das_hash_map/das_hash_map.h:548-569 | the nested loops end and compute the specified table |
| HashMap.HashMap.EraseIndex | dascript/include/das_hash_map/das_hash_map.h:529-538 | erases as specified and reports whether the key was there |
| HashMap.HashMap.EraseAt | dascript/include/das_hash_map/das_hash_map.h:452-462 | erases the slot and returns the next live one |
| HashMap.HashMap.Advance | dascript/include/das_hash_map/das_hash_map.h:278-284 | the next live slot or the end |
| HashMap.HashMap.Reserve | dascript/include/das_hash_map/das_hash_map.h:347-352 | computes the specified table |
| HashMap.HashMap.Insert | dascript/include/das_hash_map/das_hash_map.h:417-447 | computes the specified table and outcome; the slot returned is live and holds the key, with the value it had before or else the new one |
| HashMap.HashMap.Subscript | dascript/include/das_hash_map/das_hash_map.h:405-412 | yields the value the specified step answers |
| HashMap.HashMap.EraseWhere | dascript/include/das_hash_map/das_hash_map.h:452-462 | the erase-and-continue loop ends and is the specified traversal |
| Graphs.VisitIff | tools/tablegen/validate.cpp:13-37 | visiting every struct reports something exactly when one can reach itself |
| Graphs.VisitReports | tools/tablegen/validate.cpp:13-37 | a struct visited first is reported itself exactly when it contains itself, and whatever is reported does |
| Graphs.OrderRoots | tools/tablegen/codegen.cpp:388-410 | postorder lists everything reachable once, each after its successors unless these lead back |
| Graphs.PreRoot | tools/tablegen/codegen.cpp:329-358 | preorder lists exactly what the root reaches, once |
| Graphs.PreOrdered | tools/tablegen/codegen.cpp:329-358 | and each node only behind one that leads to it |
| SchemaLibrary.ClassifySchema | tools/tablegen/schema.cpp:208-233 | kind and key index follow from what the file declares; two keys, no field or both forms are refused |
| SchemaLibrary.LoadLibrary | tools/tablegen/schema.cpp:236-249 | names are unique, every parsed name is there, and loading succeeds exactly when every file parses and no name repeats |
| Validator.VisitStruct | tools/tablegen/validate.cpp:13-37 | ends on every library, restores the stack and reports exactly the names met again |
| Validator.FindCycles | tools/tablegen/validate.cpp:223-228 | the names reported are exactly those of structs and tables that contain themselves at any depth |
| Validator.CheckNestedField | tools/tablegen/validate.cpp:152-178 | no error exactly for a struct or enum column without attributes, but for an enum one of its values as the default |
| Validator.CheckScalarField | tools/tablegen/validate.cpp:180-219 | no error exactly when references name tables, limits stand on numbers, value lists on strings, keys are plain, and defaults look like the type |
| Validator.CheckEnum | tools/tablegen/validate.cpp:125-142 | no error exactly when there are values, none empty and none twice |
| Validator.RulesIff | tools/tablegen/validate.cpp:151-220 | the branches of the validator add up to twelve separate conditions on a column |
| Validator.CircleIff | tools/tablegen/validate.cpp:13-37 | the traversal's graph has a cycle exactly when a chain of struct columns comes back to where it began |
| Validator.ValidatedIff | tools/tablegen/validate.cpp:123-231 | what passes is: every column keeps the conditions, every enum has distinct nonempty values, and no chain comes back |
| Validator.ValidateLibrary | tools/tablegen/validate.cpp:123-231 | passes exactly these libraries |
| Layouts.LayableByColumns | tools/tablegen/validate.cpp:89-119 | every type at any depth is known and no row contains itself, exactly when that holds of each column's type |
| Layouts.ValidatedLayable | tools/tablegen/validate.cpp:123-231 | which validation guarantees for every row |
| Layouts.FieldTypes | tools/tablegen/validate.cpp:147-176 | in a validated library every lookup of a field's type succeeds, and nesting goes strictly down |
| Layouts.SizesFit | tools/tablegen/validate.cpp:46-63 | sizes are positive multiples of their alignments |
| Layouts.PlacesTidy | tools/tablegen/validate.cpp:39-119 | every scalar at any depth is aligned, inside its row, and apart from the others |
| Layouts.RowTidy | tools/tablegen/validate.cpp:89-119 | the same for every row that can be laid out |
| Layouts.ColumnBytes | tools/tablegen/validate.cpp:46-87 | int, float and ref take 8 bytes, bool 1, string and enums 16, a row its own size |
| Layouts.RowPacked | tools/tablegen/validate.cpp:100-115 | each column begins at the first multiple of its alignment behind the one before, and the row ends at the first multiple of the largest alignment |
| Layouts.StringAndInt | tools/tablegen/validate.cpp:100-115 | a string and an int take 24 bytes, the int at 16 |
| Layouts.RowExactIff | tools/tablegen/validate.cpp:39-44 | the 32-bit arithmetic gives a row its true size exactly when that is below 2^32, and then every offset too |
| Layouts.OffsetMapAt | tools/tablegen/validate.cpp:111-111 | no offset is overwritten by another column's |
| Layouts.LayoutSet.StructFieldLayout | tools/tablegen/validate.cpp:67-87 | succeeds exactly when the type can be laid out, with the specified size and alignment; the memo stays correct |
| Layouts.LayoutSet.ComputeStructLayout | tools/tablegen/validate.cpp:89-119 | ends on every library, restores the stack, succeeds exactly on rows that can be laid out, and the memo holds the recursive specification |
| Layouts.LayoutSet.ComputeTableLayout | tools/tablegen/validate.cpp:246-266 | the same for a table; row size, alignment and key offset are the specified 32-bit ones, and below 2^32 the first multiples behind the last column and behind the columns before the key |
| Layouts.LayoutSet.ComputeLayouts | tools/tablegen/validate.cpp:233-268 | succeeds exactly when every row can be laid out, and then covers every table and struct |
| Codegen.ValidLayouts | tools/tablegen/main.cpp:68-79 | after validation the layouts are complete |
| Codegen.CollectOrder | tools/tablegen/codegen.cpp:388-399 | computes the postorder traversal of the lookup graph |
| Codegen.OrderedSchemas | tools/tablegen/codegen.cpp:401-410 | computes that traversal over all tables and structs |
| Codegen.OrderedOnce | tools/tablegen/codegen.cpp:401-410 | lists every table and struct exactly once |
| Codegen.TopologicalIff | tools/tablegen/codegen.cpp:388-410 | structs come before what embeds them, for every order of the schemas, exactly when no embedding leads back |
| Codegen.NoScalarSuffices | tools/tablegen/codegen.cpp:388-410 | which holds for every validated library without a struct named like a scalar type |
| Codegen.StructNamedInt | tools/tablegen/codegen.cpp:393-393 | a valid library whose declarations come out in the wrong order |
| Codegen.FieldSizeAlign | tools/tablegen/codegen.cpp:211-243 | agrees with the validator's size and alignment: 8 bytes for int, float and ref, 1 for bool, 16 for string and enums |
| Codegen.TablePlan.RootOffsets | tools/tablegen/codegen.cpp:306-317 | the second computation of the root's offsets agrees with the validator's, and each is the first multiple behind the column before |
| Codegen.TablePlan.CollectScopes | tools/tablegen/codegen.cpp:329-358 | computes the preorder traversal; ids are positions and scope_of their inverse |
| Codegen.TablePlan.BuildPlan | tools/tablegen/codegen.cpp:300-327 | succeeds without a missing lookup; every scope is its row's layout, the key's offset included |
| Codegen.CollectDasStructOrder | tools/tablegen/codegen.cpp:1061-1073 | computes the postorder traversal below the table |
| Codegen.ScopesAre | tools/tablegen/codegen.cpp:329-358 | the scopes are exactly the structs inside the table, each once, and behind a scope that embeds it |
| Codegen.DeclaredAre | tools/tablegen/codegen.cpp:1054-1073 | the declarations are exactly what the lookups lead to, each once |
| Codegen.DeclaredSorted | tools/tablegen/codegen.cpp:1061-1073 | each struct is declared after those it embeds, unless these lead back |
| Codegen.ScopesDeclared | tools/tablegen/codegen.cpp:1161-1185 | every struct pushed has been declared, and without scalar-named structs nothing else has |
| Defaults.ByColumns | tools/tablegen/codegen.cpp:164-188 | a row has defaults throughout exactly when each column has |
| Defaults.ThroughoutIff | tools/tablegen/codegen.cpp:164-188 | which is: every column that is no struct, of every schema that chains of struct columns lead to, has one |
| Defaults.StructIsDefaultable | tools/tablegen/codegen.cpp:164-188 | true exactly when no scalar at any depth lacks a default |
| Defaults.DefaultableCache.ColumnIsDefaultable | tools/tablegen/codegen.cpp:190-209 | the remembered answers are the computed ones |
| Snake.OppositeUndoes | examples/snake/snake.cpp:8-33 | the opposite directions are those that undo each other |
| Snake.FreeCell | examples/snake/snake.cpp:44-56 | the guard admits the search exactly when a free cell exists |
| Snake.NextKeeps | examples/snake/snake.cpp:376-506 | every event keeps the invariant |
| Snake.RunKeeps | examples/snake/snake.cpp:376-506 | the invariant holds in every state of every run |
| Snake.ReversalEnds | examples/snake/snake.cpp:232-256 | stepping back onto the neck would end the game |
| Snake.NeverOntoNeck | examples/snake/snake.cpp:376-443 | no run takes that step: neither a move under way nor the facing points at the neck |
| Snake.HowGamesEnd | examples/snake/snake.cpp:402-443 | a game ends only at the border or at a part of the body other than the neck and the tail |
| Snake.MoveOutcome | examples/snake/snake.cpp:402-479 | in every run a move ends the game exactly when the next cell lies on the border, behind it, or on a part of the snake but the tail; otherwise the head is there, and an apple makes the snake longer by one and the score higher |
| Snake.KeyOutcome | examples/snake/snake.cpp:376-387 | a key turns the snake that way and makes the next move due, unless it is opposite to where the snake faces |
| Snake.TimeOutcome | examples/snake/snake.cpp:389-400 | a move that way the snake faces is sent exactly when the interval has passed, and what is left of the time is less by whole intervals |
| Snake.RestartOutcome | examples/snake/snake.cpp:502-506 | only a restart follows the end, and it begins with four parts in a row and no points |
| Snake.Game.NewApplePosition | examples/snake/snake.cpp:44-93 | a free cell inside the border, or none exactly when the board is full |
| Snake.Game.CreateSnake | examples/snake/snake.cpp:109-131 | four parts in a row, the head to the right |
| Snake.Game.HandleInput | examples/snake/snake.cpp:376-387 | turns and makes the next move due, unless the key is opposite to where the snake faces |
| Snake.Game.ScheduleMove | examples/snake/snake.cpp:389-400 | the loop ends; a move that way the snake faces is sent exactly when the interval has passed |
| Snake.Game.QueryCollideObstacle | examples/snake/snake.cpp:232-256 | border, body without its tail, apple, in this order |
| Snake.Game.Advance | examples/snake/snake.cpp:420-428 | each part takes the next one's place and the head the new cell |
| Snake.Game.ExecuteMove | examples/snake/snake.cpp:402-443 | steps, grows or ends the game, as specified |
| Snake.Game.EatApple | examples/snake/snake.cpp:456-473 | the score rises by one and a new apple lies on a free cell if there is one |
| Snake.Game.RestartGame | examples/snake/snake.cpp:502-506 | a new game in its first state |

## Left out

- FromCharsAdvanced: takes `compute_float` and `compute_error` as parameters with the assumptions `Rounds` and `Approximates`, because they rest on the published proof about the 128-bit table of powers of five; the comment above `compute_float` allows it a negative power, which the code never answers. The branch for small numbers in hardware arithmetic is not modelled, nor are NaN and infinity texts, which it reports as not a number.
- Convert: the same two assumptions.
- ParseNumberString: reports the exponent as accumulated, see `Exponents`; the decimal point is taken not to be a digit, and the text not to be empty, as its caller checks.
- NegativeDigitComp: the estimate is a hypothesis (`Bracketed`), proved for the approximation above; it admits more than numbers between the estimate and the next float.
- BuildPlan: states the scopes and their order, not the emitted text.
- LoadLibrary: takes the field names of one file to be distinct; they are the keys of one object, and `set_keyvalue` (src/pulse_datalist/src/datalist.cpp:833-888) merges or refuses repeated ones.
- ComputeLayouts: takes a library as the loader leaves it (`Loaded`); the wording and order of errors are not modelled.
- FindFree: stands for the rejection loop of random draws, whose termination is probabilistic.
- 32-bit limbs, wide characters and the vectorized readers of the number parser.
- Texts with a leading plus sign and leading white space, which are compiled out by default.
- The file parser of schemas, error wording, the emitted C++ and daslang text.
- Hash map: moved-from states, keys that alias the container during a rehash, capacities beyond the word size, the storage of booleans, copies of iterators; keys are compared by equality.
- Snake: rendering and asset loading; positions are integers, time is real. Input is read once between two schedulings, in either order of the two systems, and a move that was sent is carried out before the next is scheduled.

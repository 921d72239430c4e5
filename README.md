# frontend-questions exercises in Dafny

This project models the JavaScript exercise files of levels 1 and 2 of the
frontend-questions course in Dafny, and proves what each exercise promises.
The files covered are `Tasks/level_1/1.1.js`, `1.8.js` and `1.10.js`, and
`Tasks/level_2/2.1.js` to `2.8.js`. Each file holds several small functions
or snippets, and each JavaScript definition gets its own Dafny name, even
where the source reuses `f`, `fun` or `getRandomElement`.

One Dafny module corresponds to each source file (`Exercises1_1` …
`Exercises2_8`). Shared modules model the parts of JavaScript the exercises
rely on:

- `JsValues`: a `Value` datatype for mixed arrays, compared with strict
  equality; truthiness; `a[i]` out of range as `undefined`; thrown errors as
  `Result`; and `JsArray`, a class for an array object that is mutated in
  place (`splice`).
- `Decimal`: `toString()` of integers, and the values of digit strings.
- `JsNumber`: `Number(s)` following the StringNumericLiteral grammar of
  ECMAScript, with values as exact rationals. The grammar covers trimming,
  `''` as 0, a sign, `Infinity`, fractions and exponents, and 0x/0o/0b.
- `Strings`: `split` on one character (always at least one piece), `join`,
  and the case mapping.
- `Sequences`: `filter`, `findIndex`, loop de-duplication and
  `[...new Set(a)]`.
- `Sorting`: `sort` with a comparator, as an insertion sort.
- `Divisibility`: divisor lists, their sums, and the square-root pairing.
- `Calendar`: the Gregorian calendar and how `new Date(y, m, d)` normalises
  its fields.

The code's form is kept wherever the source has it:

- Loops that update variables are methods with loop invariants. Each is
  proved equal to a reference function, and the promised properties are
  lemmas about that function.
- `delEmptyEl`, the backward splice doubling and `sort` mutate the very
  array they are given (`JsArray`, `array<int>`).
- The two "never the same value twice in a row" closures are classes whose
  field is the `last` cell.
- The clock and `Math.random()` are parameters. The random draws are a
  sequence of reals in [0, 1).

In `initials` (2.6.js) a word is a piece of `split(' ')`. Two spaces in a
row make an empty word, and `''[0].toUpperCase()` then throws.

## Model

| member | source | states |
|---|---|---|
| Exercises1_1.IsDigitsAscending | Tasks/level_1/1.1.js:3-12 | true exactly when every character of `number.toString()` is below every later one (the early-exit scan is complete) |
| Exercises1_1.AscendingExample12345 | Tasks/level_1/1.1.js:15 | 12345 is ascending |
| Exercises1_1.AscendingExample12341 | Tasks/level_1/1.1.js:16 | 12341 is not ascending |
| Exercises1_1.AscendingExample1357 | Tasks/level_1/1.1.js:17 | 1357 is ascending |
| Exercises1_1.AscendingExample9876 | Tasks/level_1/1.1.js:18 | 9876 is not ascending |
| Exercises1_1.SignIgnored | Tasks/level_1/1.1.js:4-10 | a negative number gets the same answer as its magnitude, because '-' sorts below every digit |
| Exercises1_1.SignPrefix | Tasks/level_1/1.1.js:4-10 | putting '-' before a digit string does not change whether it is ascending |
| Exercises1_1.SingleDigit | Tasks/level_1/1.1.js:6-11 | a single digit is ascending, because the loop never runs |
| Exercises1_1.DelEmptyEl | Tasks/level_1/1.1.js:28-36 | the forEach-with-splice walk leaves the shared array equal to `Cleaned` of its old contents and returns that same array |
| Exercises1_1.Cleaned | Tasks/level_1/1.1.js:29-33 | the array the walk leaves is never longer than the input |
| Exercises1_1.CleanedKeepsTruthy | Tasks/level_1/1.1.js:29-33 | no truthy element is lost, and the truthy elements keep their order |
| Exercises1_1.CleanedSubMultiset | Tasks/level_1/1.1.js:29-33 | only input elements remain, none more often than before |
| Exercises1_1.CleanedIsFilter | Tasks/level_1/1.1.js:29-33 | when no two falsy elements are adjacent, exactly the falsy ones are removed |
| Exercises1_1.DelEmptyElExamples | Tasks/level_1/1.1.js:26-38 | the sample gives [1, 2, 3, 5]; ['', ''] leaves [''] |
| Exercises1_1.DelFalsyEl | Tasks/level_1/1.1.js:28-36 | the corrected in-place removal leaves exactly the truthy elements, in order, and returns the same array |
| Exercises1_1.WithoutEmptyStrings | Tasks/level_1/1.1.js:45 | `filter(el => el !== '')`; its contract is `WithoutEmptyStringsCount` |
| Exercises1_1.WithoutEmptyStringsCount | Tasks/level_1/1.1.js:45 | the filter removes every '' and keeps every other value as often as it occurred |
| Exercises1_1.WithoutEmptyStringsExample | Tasks/level_1/1.1.js:42-47 | the sample gives [1, 2, 3, 5] |
| Exercises1_1.NumLeTotal | Tasks/level_1/1.1.js:63 | the comparator `(a, b) => a - b` orders every pair |
| Exercises1_1.SortInts | Tasks/level_1/1.1.js:63 | the numeric sort is ascending and a permutation of its input |
| Exercises1_1.SortInPlace | Tasks/level_1/1.1.js:63 | the array becomes the ascending permutation of its old contents |
| Exercises1_1.SortArr | Tasks/level_1/1.1.js:61-67 | returns the same outer array; every inner array ends ascending and holds its old values, even when inner arrays are shared |
| Exercises1_1.SortArrByMap | Tasks/level_1/1.1.js:80 | a fresh outer array of the same length whose entries are the input's inner arrays, each now sorted in place |
| Exercises1_1.TrimSecond | Tasks/level_1/1.1.js:96-99 | the new `arr2` is the prefix of `arr2` of length min(len1, len2); `arr1` is not an output |
| Exercises1_1.TrimSecondEqualizes | Tasks/level_1/1.1.js:96-99 | the lengths become equal exactly when `arr2` was not the shorter one |
| Exercises1_1.TrimSecondExample | Tasks/level_1/1.1.js:92-102 | [1, 2, 3, 4, 5] against [1, 2, 3] gives [1, 2, 3] |
| Exercises1_8.AllContainThree | Tasks/level_1/1.8.js:5 | true exactly when every number's decimal string contains '3' |
| Exercises1_8.ThreeInInteger | Tasks/level_1/1.8.js:5 | the string test is the same as asking whether 3 is a decimal digit of the magnitude |
| Exercises1_8.ThreeInDecimal | Tasks/level_1/1.8.js:5 | for natural numbers, '3' in the decimal string exactly when 3 is a digit |
| Exercises1_8.AllContainThreeExample | Tasks/level_1/1.8.js:3-7 | [3, 13, 23, 33, 43] passes |
| Exercises1_8.KebabToSnake | Tasks/level_1/1.8.js:22 | `str.replace(/-/g, '_')`, stated through `ReplaceAll`, `KebabToSnakeInverse` and `ReplaceIsSplitJoin` |
| Exercises1_8.ReplaceAll | Tasks/level_1/1.8.js:22 | same length; each '-' becomes '_' and every other character stays in place |
| Exercises1_8.KebabToSnakeInverse | Tasks/level_1/1.8.js:22 | no '-' is left, and replacing back gives the input when it had no '_' |
| Exercises1_8.ReplaceIsSplitJoin | Tasks/level_1/1.8.js:22 | the global replace equals splitting at '-' and joining with '_' |
| Exercises1_8.ReplaceAllAppend | Tasks/level_1/1.8.js:22 | the replacement works piece by piece over a concatenation |
| Exercises1_8.KebabExample | Tasks/level_1/1.8.js:20-24 | 'kebab-case' gives 'kebab_case' |
| Exercises1_8.SnakeToCamel | Tasks/level_1/1.8.js:37-41 | the split/capitalise/join conversion, stated through `SnakeToCamelShape`, `SnakeToCamelOfWords` and the two round trips |
| Exercises1_8.SnakeToCamelShape | Tasks/level_1/1.8.js:37-41 | snake→camel throws exactly when a segment after the first is empty; otherwise no '_' is left |
| Exercises1_8.SnakeToCamelOfWords | Tasks/level_1/1.8.js:37-41 | for '_'-joined words, the first word is kept and each later word is capitalized |
| Exercises1_8.SnakeToCamelExample | Tasks/level_1/1.8.js:37-42 | 'snake_case' gives 'snakeCase' |
| Exercises1_8.CamelToSnake | Tasks/level_1/1.8.js:55-69 | the for-of loop builds exactly `Snake` of the input: each upper-case letter becomes '_' and its lower-case form |
| Exercises1_8.SnakeAppend | Tasks/level_1/1.8.js:58-66 | the conversion works character by character |
| Exercises1_8.SnakeShape | Tasks/level_1/1.8.js:55-69 | the output is longer by the number of upper-case letters and holds no upper-case letter |
| Exercises1_8.SnakeOfLower | Tasks/level_1/1.8.js:58-66 | a string without upper-case letters passes through unchanged |
| Exercises1_8.CamelSnakeRoundTrip | Tasks/level_1/1.8.js:37-41 | camel→snake then snake→camel gives back every string without '_' |
| Exercises1_8.SnakeCamelRoundTrip | Tasks/level_1/1.8.js:55-69 | snake→camel then camel→snake gives back a string that has no upper-case letters and whose later segments start with a lower-case letter |
| Exercises1_10.DoubleInPlace | Tasks/level_1/1.10.js:7-9 | the backward splice loop turns the array, in place, into each element followed by a copy of itself |
| Exercises1_10.Doubled | Tasks/level_1/1.10.js:7-9 | the doubled array is twice as long |
| Exercises1_10.DoubledIndex | Tasks/level_1/1.10.js:7-9 | position i of the doubled array holds original element i / 2 |
| Exercises1_10.FlatMap | Tasks/level_1/1.10.js:16 | `flatMap`: each element's array, concatenated in order; stated by `FlatMapDoubles` |
| Exercises1_10.ReduceConcat | Tasks/level_1/1.10.js:22 | `reduce((acc, el) => acc.concat([el, el]), [])`; stated by `ReduceConcatDoubles` |
| Exercises1_10.FlatMapDoubles | Tasks/level_1/1.10.js:16 | `flatMap(el => [el, el])` builds the same doubled array |
| Exercises1_10.ReduceConcatDoubles | Tasks/level_1/1.10.js:22 | the reduce/concat version appends the doubled array to its accumulator |
| Exercises1_10.ThreeWaysAgree | Tasks/level_1/1.10.js:7-22 | the three versions agree on every array |
| Exercises2_1.Weekday | Tasks/level_2/2.1.js:14 | `getDay()` lies in 0..6 |
| Exercises2_1.ReturnDay | Tasks/level_2/2.1.js:13-16 | the weekday name of the moment; stated by `ReturnDayNext` and `ReturnDayEpoch` |
| Exercises2_1.ReturnDayNext | Tasks/level_2/2.1.js:13-16 | a day later the next weekday name is returned, wrapping from Saturday to Sunday |
| Exercises2_1.ReturnDayEpoch | Tasks/level_2/2.1.js:3-16 | 1970-01-01 is a Thursday |
| Exercises2_1.SecondsToDays | Tasks/level_2/2.1.js:24-27 | `seconds / 86400`; stated by `SecondsToDaysInverse` |
| Exercises2_1.SecondsToDaysInverse | Tasks/level_2/2.1.js:24-27 | multiplying the days by 86400 gives the seconds back; a full day or more is at least 1 |
| Exercises2_1.SecondsToDaysExamples | Tasks/level_2/2.1.js:30-32 | 86400 gives 1, 172800 gives 2, and 90000 gives a little more than 1 |
| Exercises2_1.TruncateString | Tasks/level_2/2.1.js:38-46 | throws first for a non-string and then for a non-number or negative length; otherwise gives the prefix of length min(length, size) |
| Exercises2_1.TruncateIdempotent | Tasks/level_2/2.1.js:45 | truncating twice to the same length changes nothing |
| Exercises2_1.TruncateExamples | Tasks/level_2/2.1.js:49-51 | the three sample calls give "Приве", "Hello" and "" |
| Exercises2_1.GetSumOfDivisorsWhile | Tasks/level_2/2.1.js:59-75 | throws for num <= 0; otherwise returns the sum of every d in 1..num that divides num |
| Exercises2_1.SumOfDivisorsBound | Tasks/level_2/2.1.js:64-74 | from 2 on, the sum is at least num + 1 |
| Exercises2_1.F | Tasks/level_2/2.1.js:83-94 | the recursion with default `divisor = 1` and `res = 0`; stated by `FSum` and `FIsSumOfDivisors` |
| Exercises2_1.FSum | Tasks/level_2/2.1.js:83-94 | from divisor d on, the recursion adds exactly the divisors from d to num to its accumulator |
| Exercises2_1.FIsSumOfDivisors | Tasks/level_2/2.1.js:83-96 | `f(num)` equals the loop's sum for positive num, and is 0 where the loop throws |
| Exercises2_2.ParseIntChar | Tasks/level_2/2.2.js:19 | `parseInt` of one character is NaN exactly when it is not a digit |
| Exercises2_2.DigitSumByLoop | Tasks/level_2/2.2.js:14-23 | the loop gives the digit sum, and NaN for a negative number |
| Exercises2_2.LoopSum | Tasks/level_2/2.2.js:18-20 | parseInt of every character of `num.toString()`, added up, is the digit sum or NaN |
| Exercises2_2.ReduceDigitsIsReduceChars | Tasks/level_2/2.2.js:5-23 | on digit strings, the reduce with `Number` and the loop with `parseInt` add up the same way |
| Exercises2_2.DigitSumByReduce | Tasks/level_2/2.2.js:5-8 | the `split('').reduce` version; stated by `DigitSumVersionsAgree` |
| Exercises2_2.DigitSumVersionsAgree | Tasks/level_2/2.2.js:5-23 | the reduce version gives the digit sum, like the loop, and NaN for a negative number, like the loop |
| Exercises2_2.DigitSumExample | Tasks/level_2/2.2.js:10 | 1568 has digit sum 20 |
| Exercises2_2.RemoveZeros | Tasks/level_2/2.2.js:31-43 | keeps the characters of `num.toString()` other than '0', in order, and returns `Number` of them |
| Exercises2_2.RemoveZerosValue | Tasks/level_2/2.2.js:31-45 | the result is the number the non-zero digits spell; it is 0 exactly when the input is 0 |
| Exercises2_2.RemoveZerosDigits | Tasks/level_2/2.2.js:35-39 | no '0' is left |
| Exercises2_2.RemoveZerosIdempotent | Tasks/level_2/2.2.js:35-39 | removing zeros from the result again changes nothing |
| Exercises2_2.DaysRemaining | Tasks/level_2/2.2.js:51-62 | the last day of the month minus today; stated by `DaysRemainingValue` |
| Exercises2_2.DaysRemainingValue | Tasks/level_2/2.2.js:51-62 | the Gregorian length of the month minus the day; in 0..30, and 0 exactly on the last day |
| Calendar.DayZeroIsLastDay | Tasks/level_2/2.2.js:57 | `new Date(y, m + 1, 0)` is the last day of month m |
| Exercises2_2.GetAdjacentDays | Tasks/level_2/2.2.js:80-93 | yesterday, today and tomorrow by weekday index; stated by `AdjacentDaysCyclic` |
| Exercises2_2.AdjacentDaysCyclic | Tasks/level_2/2.2.js:80-93 | prev and next are one step back and forward around the week, both differ from today, and the day after has today as its prev |
| Calendar.WeekdayNamesDistinct | Tasks/level_2/2.2.js:70-78 | no two weekday names are equal |
| Exercises2_3.RemoveDuplicates | Tasks/level_2/2.3.js:7-18 | the `includes` loop computes `Dedupe`: first occurrences, in order |
| Sequences.Dedupe | Tasks/level_2/2.3.js:11-15 | the result holds every input value, nothing else, and none twice |
| Sequences.DedupeKeepsFirstOccurrenceOrder | Tasks/level_2/2.3.js:11-15 | values appear in the order of their first occurrence in the input |
| Sequences.DedupeIdempotent | Tasks/level_2/2.3.js:11-15 | de-duplicating twice changes nothing |
| Sequences.SetSpreadIsDedupe | Tasks/level_2/2.3.js:26-29 | `[...new Set(arr)]` gives the same array as the loop |
| Exercises2_3.RemoveAdjacentLoop | Tasks/level_2/2.3.js:39-50 | the loop computes `RemoveAdjacent`, reading `arr[arr.length]` as undefined |
| Exercises2_3.RemoveAdjacent | Tasks/level_2/2.3.js:43-47 | what the loop pushes; stated by `RemoveAdjacentIsCollapse` and `RemoveAdjacentOfRuns` |
| Exercises2_3.RemoveAdjacentSpec | Tasks/level_2/2.3.js:39-50 | the shape of the result: no two neighbours are equal, every value other than undefined survives, and nothing new appears (the exact result is `RemoveAdjacentIsCollapse`) |
| Exercises2_3.TrailingUndefinedDropped | Tasks/level_2/2.3.js:43-47 | the final undefined is not pushed, because the step that reads `arr[arr.length]` sees two undefineds |
| Exercises2_3.RemoveAdjacentIsCollapse | Tasks/level_2/2.3.js:39-50 | the loop keeps one element of every maximal run of equal neighbours, in order (`Collapse`); an array ending in undefined loses just that last element |
| Exercises2_3.CollapseRuns | Tasks/level_2/2.3.js:35 | runs of distinct neighbouring values collapse to exactly those values, so a value that appears again after a different one is kept |
| Exercises2_3.RemoveAdjacentOfRuns | Tasks/level_2/2.3.js:39-50 | on such runs the loop returns one value per run, in order, unless the last run is of undefined |
| Exercises2_3.RemoveAdjacentExample | Tasks/level_2/2.3.js:37-52 | [1, 2, 2, 3, 3, 3, 4, 4, 5, 2, 2] gives [1, 2, 3, 4, 5, 2] |
| Exercises2_3.MinMaxLoop | Tasks/level_2/2.3.js:67-84 | the least and greatest elements of a non-empty array; undefined for both when it is empty |
| Exercises2_3.SeqMin | Tasks/level_2/2.3.js:67-84 | the minimum is an element and at most every element |
| Exercises2_3.SeqMax | Tasks/level_2/2.3.js:67-84 | the maximum is an element and at least every element |
| Exercises2_3.MinMaxUnique | Tasks/level_2/2.3.js:67-84 | any pair of elements bounding the array is that minimum and maximum |
| Exercises2_3.MathMin | Tasks/level_2/2.3.js:94 | `Math.min` over the spread array, a left-to-right fold from Infinity; stated by `MinMaxVersionsAgree` |
| Exercises2_3.MathMax | Tasks/level_2/2.3.js:95 | `Math.max` over the spread array, a left-to-right fold from -Infinity; stated by `MinMaxVersionsAgree` |
| Exercises2_3.MinFoldFinite | Tasks/level_2/2.3.js:94 | from a finite running value, the `Math.min` fold ends at the least of it and the arguments |
| Exercises2_3.MaxFoldFinite | Tasks/level_2/2.3.js:95 | from a finite running value, the `Math.max` fold ends at the greatest of it and the arguments |
| Exercises2_3.MinMaxVersionsAgree | Tasks/level_2/2.3.js:67-97 | on a non-empty array `Math.min`/`Math.max` give the minimum and maximum that the loop returns; on an empty one they give Infinity and -Infinity where the loop leaves undefined |
| Exercises2_3.MinMaxExample | Tasks/level_2/2.3.js:65-86 | the sample gives min -1 and max 343 |
| Exercises2_4.CountDivisors | Tasks/level_2/2.4.js:3-16 | the square-root loop counts the divisors of a positive num, and gives 0 for num <= 0 |
| Divisibility.DivisorCountByPairs | Tasks/level_2/2.4.js:7-12 | the divisor count is twice the divisors below the root, plus the root when it divides |
| Exercises2_4.CountStep | Tasks/level_2/2.4.js:7-12 | each step counts the divisor i as below or at the square root |
| Exercises2_4.IsPrime | Tasks/level_2/2.4.js:24-36 | true exactly for primes; false for everything below 2 |
| Exercises2_4.RootSuffices | Tasks/level_2/2.4.js:29-33 | no divisor up to the square root means prime |
| Exercises2_4.PrimeExamples | Tasks/level_2/2.4.js:39-43 | 2 and 17 are prime; 10, 1 and 0 are not |
| Exercises2_4.OddTestDigit | Tasks/level_2/2.4.js:50 | on digits, `Number(el) % 2 !== 0` holds exactly for odd digits |
| Exercises2_4.OddTestMinus | Tasks/level_2/2.4.js:50 | the test also keeps '-', whose `Number` is NaN |
| Exercises2_4.RemoveEvenDigits | Tasks/level_2/2.4.js:49-52 | the characters kept by the odd test; stated by the three `RemoveEvenDigits…` lemmas |
| Exercises2_4.RemoveEvenDigitsOfNatural | Tasks/level_2/2.4.js:49-52 | exactly the odd digits are kept, in order, and the result is the number they spell (0 when none is kept) |
| Exercises2_4.RemoveEvenDigitsOfNegative | Tasks/level_2/2.4.js:49-52 | a negative number keeps its '-' before its odd digits |
| Exercises2_4.RemoveEvenDigitsAllEvenNegative | Tasks/level_2/2.4.js:50 | a negative number with only even digits gives NaN |
| Exercises2_5.IsNumberStringChars | Tasks/level_2/2.5.js:5 | accepted exactly when every character is a digit or white space; the empty string included |
| Exercises2_5.IsNumberExample | Tasks/level_2/2.5.js:3-7 | '465464844' and '' are accepted |
| Exercises2_5.DigitsAreNumber | Tasks/level_2/2.5.js:5 | every digit string is accepted |
| Exercises2_5.LetterIsNotNumber | Tasks/level_2/2.5.js:5 | a lower-case letter anywhere makes it fail |
| Exercises2_5.IsNumberString | Tasks/level_2/2.5.js:5 | `!isNaN(Number(str))`; stated by `IsNumberStringChars` |
| JsNumber.NumericChar | Tasks/level_2/2.5.js:5 | `Number(c)` of one character is a number exactly for digits and white space |
| Exercises2_5.FractionParts | Tasks/level_2/2.5.js:17-19 | with one slash, a fraction exactly when both sides are accepted by `Number` |
| Exercises2_5.FractionSplits | Tasks/level_2/2.5.js:17-19 | a fraction has exactly one slash and is its two parts around it |
| Exercises2_5.IsFraction | Tasks/level_2/2.5.js:17-19 | one slash and a number on each side; stated by `FractionParts` and `FractionSplits` |
| Exercises2_5.FractionExample | Tasks/level_2/2.5.js:15-21 | '5/2' is a fraction |
| Exercises2_5.EmptyPartsExample | Tasks/level_2/2.5.js:17-19 | '/' and '5/' are fractions, because `Number('')` is 0 |
| Exercises2_5.TwoSlashesExample | Tasks/level_2/2.5.js:18 | '1/2/3' is not a fraction |
| Exercises2_5.SortDesc | Tasks/level_2/2.5.js:30 | `sort((a, b) => b - a)` is descending and a permutation |
| Exercises2_5.SecondLargestSpec | Tasks/level_2/2.5.js:29-32 | null exactly when fewer than two distinct values; otherwise the largest value below the maximum |
| Exercises2_5.SecondLargestUnique | Tasks/level_2/2.5.js:29-32 | any value meeting that description is the one returned |
| Exercises2_5.GetSecondLargest | Tasks/level_2/2.5.js:29-32 | the second entry of the de-duplicated descending sort; stated by `SecondLargestSpec` |
| Exercises2_5.SecondLargestExample | Tasks/level_2/2.5.js:27-34 | the sample gives 8 |
| Exercises2_5.RangeLoop | Tasks/level_2/2.5.js:48-56 | the loop pushes the same array that the `Array.from` version builds |
| Exercises2_5.RangeSpec | Tasks/level_2/2.5.js:48-64 | length max - min + 1, exactly the integers min..max, ascending; empty when min > max |
| Exercises2_5.RangeFrom | Tasks/level_2/2.5.js:62-64 | the `Array.from` version; stated by `RangeSpec` |
| Exercises2_5.RangeExample | Tasks/level_2/2.5.js:58 | (2, 12) gives 2..12 |
| Exercises2_6.IsValidDateOfParts | Tasks/level_2/2.6.js:3-24 | year-month-day is judged on `Number` of its three parts |
| Exercises2_6.FalsyFieldRejected | Tasks/level_2/2.6.js:5-13 | a missing, non-numeric or zero field makes the date invalid |
| Exercises2_6.ExtraPartsIgnored | Tasks/level_2/2.6.js:5 | parts after the third are ignored |
| Exercises2_6.ReconstructsInts | Tasks/level_2/2.6.js:16-23 | on integer fields the reconstruction test is a question about `new Date` normalisation |
| Exercises2_6.ReconstructsIff | Tasks/level_2/2.6.js:16-23 | from year 100 on, integer fields reconstruct exactly when they name a real Gregorian day |
| Exercises2_6.ValidFieldsIff | Tasks/level_2/2.6.js:10-23 | the same for the whole test, for non-negative month and day |
| Exercises2_6.IsValidDateDigits | Tasks/level_2/2.6.js:3-24 | for digit strings, valid exactly when month is 1..12 and day is 1..the month's length |
| Exercises2_6.IsValidDate | Tasks/level_2/2.6.js:3-24 | the split, falsy test and reconstruction; stated by `IsValidDateOfParts` and `IsValidDateDigits` |
| Exercises2_6.TwoDigitYearsRejected | Tasks/level_2/2.6.js:16-20 | years 0..99 never reconstruct, because `Date` moves them to 1900..1999 |
| Calendar.NormalizeFixed | Tasks/level_2/2.6.js:16 | `new Date(y, m, d)` keeps the fields exactly when they are in range |
| Calendar.NormalizeKeepsYear | Tasks/level_2/2.6.js:19-22 | a normalised date that shows the requested month and day also shows the requested year |
| Exercises2_6.ValidDateExample | Tasks/level_2/2.6.js:27 | "2025-01-18" is valid |
| Exercises2_6.InvalidDayExample | Tasks/level_2/2.6.js:28 | "2025-02-30" is invalid |
| Exercises2_6.LetterYearRejected | Tasks/level_2/2.6.js:29 | a year part such as "abcd" makes the date invalid |
| Exercises2_6.InvalidMonthExample | Tasks/level_2/2.6.js:30 | "2025-13-01" is invalid |
| Exercises2_6.InitialsAsWrittenAlwaysFails | Tasks/level_2/2.6.js:55-61 | as written, the function throws the TypeError for every argument |
| Exercises2_6.InitialsAsWritten | Tasks/level_2/2.6.js:55-61 | the function as written, which splits `res`; stated by `InitialsAsWrittenAlwaysFails` |
| Exercises2_6.Initials | Tasks/level_2/2.6.js:55-61 | the corrected function, which splits `str`; stated by `InitialsOfSpec` and `InitialsOfJoined` |
| Exercises2_6.InitialsOfSpec | Tasks/level_2/2.6.js:60 | the map/join fails exactly when some word is empty; otherwise it gives the upper-cased first letter of each word, in order |
| Exercises2_6.InitialsOfJoined | Tasks/level_2/2.6.js:55-61 | the corrected function gives the initials of words joined by single spaces |
| Exercises2_6.InitialsSpaceFails | Tasks/level_2/2.6.js:58-60 | a doubled or leading space makes an empty word, so it throws |
| Exercises2_6.InitialsExample | Tasks/level_2/2.6.js:63 | the sample sentence gives "СФКП" |
| Exercises2_6.DivisorList | Tasks/level_2/2.6.js:71-77 | the callback's loop pushes exactly the divisors of num |
| Exercises2_6.ReplaceWithDivisors | Tasks/level_2/2.6.js:69-79 | same length; each number becomes its divisor list |
| Exercises2_6.DivisorsSpec | Tasks/level_2/2.6.js:72-76 | the list holds exactly the d in 1..n that divide n, ascending, and is empty for n <= 0 |
| Exercises2_6.DivisorsExample | Tasks/level_2/2.6.js:82-83 | 6 gives [1, 2, 3, 6] |
| Exercises2_6.ConvertSecondsSpec | Tasks/level_2/2.6.js:96-104 | d·86400 + h·3600 + m·60 + s is the input, with h < 24 and m, s < 60 |
| Exercises2_6.ConvertSecondsUnique | Tasks/level_2/2.6.js:96-104 | that is the only split within those bounds |
| Exercises2_6.ConvertSeconds | Tasks/level_2/2.6.js:96-104 | the div/mod split; stated by `ConvertSecondsSpec` and `ConvertSecondsUnique` |
| Exercises2_6.ConvertSecondsExample | Tasks/level_2/2.6.js:107-108 | 1234567 gives 14 d 6 h 56 m 7 s |
| Exercises2_7.StrLeTotal | Tasks/level_2/2.7.js:8 | the comparator orders every pair of words |
| Exercises2_7.SortedWords | Tasks/level_2/2.7.js:5-8 | the sorted words are a permutation of the split words, in order |
| Exercises2_7.SortWordsSpec | Tasks/level_2/2.7.js:3-12 | the result splits back into the same multiset of words, in non-decreasing order |
| Exercises2_7.SortWordsAlphabetically | Tasks/level_2/2.7.js:3-12 | split, sort and join; stated by `SortedWords` and `SortWordsSpec` |
| Strings.SplitJoin | Tasks/level_2/2.7.js:11 | joining separator-free pieces and splitting again gives the pieces back |
| Exercises2_7.OptimizedIsCommon | Tasks/level_2/2.7.js:35-38 | the Set lookup filters to the same array as `includes` |
| Exercises2_7.CommonSpec | Tasks/level_2/2.7.js:35-38 | exactly the elements of array1 found in array2, with array1's multiplicities |
| Exercises2_7.UniqueIsDedupedCommon | Tasks/level_2/2.7.js:29-37 | the unique version is the optimized one de-duplicated |
| Exercises2_7.UniqueSpec | Tasks/level_2/2.7.js:28-30 | each common value once, in order of first occurrence in array1 |
| Exercises2_7.GetCommonElementsUnique | Tasks/level_2/2.7.js:28-30 | the `includes` filter, de-duplicated; stated by `UniqueSpec` |
| Exercises2_7.GetCommonElementsOptimized | Tasks/level_2/2.7.js:35-38 | the Set lookup filter; stated by `OptimizedIsCommon` and `CommonSpec` |
| Exercises2_7.UniqueExample | Tasks/level_2/2.7.js:32 | [1, 2, 2, 3] and [2, 3, 3, 4] give [2, 3] |
| Exercises2_7.OptimizedExample | Tasks/level_2/2.7.js:40 | [1, 2, 3, 4] and [3, 4, 5, 6] give [3, 4] |
| Exercises2_7.RandomGenerator.constructor | Tasks/level_2/2.7.js:48-49 | the generator starts with no last number |
| Exercises2_7.RandomGenerator.GenerateRandom | Tasks/level_2/2.7.js:51-61 | returns the first drawn number in 0..99 that differs from the last one and stores it as the new last one |
| Exercises2_7.FirstNew | Tasks/level_2/2.7.js:55-57 | every draw before the index repeats the last number, and the draw at it does not |
| Exercises2_7.DrawRange | Tasks/level_2/2.7.js:56 | every draw gives a number in 0..99 |
| Exercises2_7.FuncCyclic | Tasks/level_2/2.7.js:77-83 | the element after the first occurrence of n, or `a[0]` when that is the last index |
| Exercises2_7.FuncAbsent | Tasks/level_2/2.7.js:78-82 | an absent n has index -1, so `a[0]` is returned |
| Exercises2_7.Func | Tasks/level_2/2.7.js:77-83 | the next element after n, cyclically; stated by `FuncCyclic` and `FuncAbsent` |
| Exercises2_7.FuncExamples | Tasks/level_2/2.7.js:85-87 | 3 gives 4, 5 gives 1, 1 gives 2 |
| Exercises2_8.GetRandomElement | Tasks/level_2/2.8.js:3-9 | throws exactly for a non-array or an empty array; otherwise returns the element at the drawn index |
| Exercises2_8.RandomIndexInRange | Tasks/level_2/2.8.js:7 | the drawn index lies in 0..length - 1 |
| Exercises2_8.Pick | Tasks/level_2/2.8.js:7-8 | the picked value is an element of the array |
| Exercises2_8.NoRepeatPicker.constructor | Tasks/level_2/2.8.js:19-20 | the closure holds the array, and its last element starts as null |
| Exercises2_8.NoRepeatPicker.Next | Tasks/level_2/2.8.js:22-37 | null for an empty array, leaving the state alone; otherwise the first drawn element that differs from the last one, stored as the new last one |
| Exercises2_8.FirstOther | Tasks/level_2/2.8.js:30-33 | every draw before the index picks the last element again, and the draw at it does not |
| Exercises2_8.NoOtherNeverEnds | Tasks/level_2/2.8.js:30-33 | when every element equals the last one, no draw ends the loop |
| Exercises2_8.FirstCallNotNull | Tasks/level_2/2.8.js:20-33 | on the first call, the returned element is never null |
| JsNumber.NumberOfDigits | Tasks/level_2/2.6.js:5 | `Number` of a non-empty digit string is its decimal value |
| JsNumber.NumberOfEmpty | Tasks/level_2/2.2.js:38 | `Number('')` is 0 |
| Decimal.ParseNatToString | Tasks/level_2/2.2.js:38 | reading back `n.toString()` gives n |
| Decimal.NatToStringOfZeroFree | Tasks/level_2/2.2.js:38 | a zero-free digit string is how its own value prints |

## Left out

- Numbers are exact integers and rationals, not IEEE-754 doubles. Rounding, `-0`, non-integer array elements and non-integer arguments (`convertSeconds`, `truncateString`, the divisor functions) are not modelled.
- `Math.sqrt` bounds are modelled exactly as `i * i <= num`.
- Exercises2_1.F: the source recurses once per candidate divisor, so a large `num` overflows the engine's call stack with a `RangeError`; the model returns the sum for every `num`.
- `secondsToDays` divides exact reals, not doubles.
- `localeCompare` is modelled as code-point order. `toUpperCase` and `toLowerCase` map only ASCII and basic Cyrillic letters.
- `new Date()` and `getDay()` read the clock; here the moment, or the year, month, day and weekday, are parameters.
- The time zone is not modelled. `Date` is local time, and its range is checked only as far as every zone agrees.
- `Math.random()` is a parameter: a sequence of reals in [0, 1). A redraw loop's method requires that some draw in the sequence ends it. For the 2.8 picker no draw can end it when every element equals the last one returned, such as a one-element array on its second call or `[null]` on its first call. In those cases the source loops forever; `Exercises2_8.NoOtherNeverEnds` proves that no draw ends the loop.
- Strings are sequences of Unicode code points, while JavaScript measures them in UTF-16 code units. So `length`, `slice`, `str[0]` and `split('')` (`truncateString`, `initials`, the digit splits and `isNumber`) agree with JavaScript only on text inside the Basic Multilingual Plane. For example, `truncateString(1, "😀")` gives a lone surrogate in JavaScript and the whole emoji here.
- Console output is modelled as the function's result wherever the source prints instead of returning. Debug logs are omitted.
- Calls to duplicate declarations are not modelled. JavaScript hoisting makes some demo calls reach a later definition of the same name (a `fun` or `f`).
- Thrown errors become `Err` values carrying their message. `new Error` becomes `InvalidArgument`, and `undefined.toUpperCase()` becomes `TypeError`.
- Array identity is modelled only where an array is mutated (`JsArray`, `array`). Elsewhere arrays are values, and `===` between arrays is not modelled.
- `fillArrayWithRandomNumbers`, `getRandomLetters` and the random-string `f` produce nothing but random output, so they are not modelled.
- Demo outputs that need long arithmetic are not worked out as lemmas: 84 → 224, 1012600 → 1126, 14567432465 → 1573, and the full `replaceWithDivisors([6, 12, 15])`. The general results cover them.
- Exercises1_8.SnakeToCamelExample: the sample is 'snake_case' rather than the source's longer 'convert_snake_case_to_camel_case'; the general SnakeToCamelOfWords covers that one.
- Exercises1_1.SortInPlace: the order in which the engine's sort moves elements is not modelled, only the array it leaves.
- Tasks/other/пробразование_массива_в_объект.js is not part of this model.

## Findings

| source | as written | input that shows it | evidently intended | confidence | as-written member | corrected member |
|---|---|---|---|---|---|---|
| Tasks/level_1/1.1.js:29-33 | `forEach` walks indices while `splice` shifts later elements left, so the element after each removed one is never examined | `['', '']` leaves `['']` | every falsy element removed | not executed | Exercises1_1.DelEmptyEl | Exercises1_1.DelFalsyEl |
| Tasks/level_2/2.6.js:56-60 | splits the empty `res` instead of `str`, so `word[0]` is undefined and `toUpperCase` throws | any string, e.g. 'Сделайте функцию, которая параметром' | the upper-cased initials of the words of `str` ("СФКП") | not executed | Exercises2_6.InitialsAsWritten | Exercises2_6.Initials |

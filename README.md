# CPP09 exercises in Dafny

This project models the core of three small C++ programs and proves properties of that model.

- **PmergeMe (ex02)** checks its command-line arguments and sorts them with the Ford–Johnson merge-insertion sort.
  - Each argument must be a distinct positive integer that fits in `int`.
  - The sort pairs neighbouring elements and sorts the larger element of each pair recursively.
  - It then puts the pairs in that order and inserts the smaller elements into the chain of larger ones. Each insertion is a binary search bounded by the element's partner.
  - Two last steps follow: a safety pass inserts any small element the insertion schedule missed, and an odd element left over is inserted at the end.
  - The schedule is modelled as written. The Jacobsthal generator stops at `[0, 1, 1]`, because its equality check fires on the first repeated value. For `n >= 2` pairs the insertion order is therefore `[0, n-1, n-2, ..., 2]`. Index 1 is never scheduled, so the safety pass inserts it. The output is still sorted; only the number of comparisons differs from textbook Ford–Johnson.
  - The vector and deque versions are the same algorithm line for line. They are modelled once, over `seq<int>`. `SortBothContainers` runs that algorithm twice, once for each container, and proves that the two results agree. `main` checks exactly that agreement.
- **RPN (ex01)** evaluates a reverse Polish expression of single-digit operands using the four operators and a stack.
  - Each kind of bad input gets its own error: an empty expression, a token of more than one byte, a character that is neither a digit nor an operator, a missing operand, division by zero, and values left over at the end.
  - The tokens are read from `expr.c_str()`, so a NUL character ends the text the stream sees. The emptiness test still looks at the whole string.
  - Division truncates toward zero, as C++ division does. Dafny's `/` is Euclidean instead, so truncating division is defined explicitly.
- **BitcoinExchange (ex00)** covers several pieces:
  - whitespace trimming and digit checks;
  - the Gregorian calendar and `YYYY-MM-DD` date validation;
  - the rate lookup. It answers a date with the rate of the latest stored date that is not after it.
  - The rate table `_rates` is a `std::map`. Here it is a class holding the map's entries in key order, with `std::string`'s lexicographic `operator<` defined. Rates are a type parameter, so no floating-point reasoning is involved.

Files:
- `wrappers.dfy`: `Option` and `Result`.
- `chars.dfy`: `<cctype>` classes in the C locale, UTF-8 byte lengths, and the decimal value of a digit string.
- `pmerge.dfy`, `rpn.dfy`, `bitcoin.dfy`: one module per program (`PmergeMe`, `RPN`, `Exchange`).

Thrown exceptions become `Failure` results. A `bool` function with an out-parameter becomes an `Option`. Functions that loop are methods, each proved against a specification function or an explicit property.

## Model

| member | source | states |
|---|---|---|
| Chars.IsDigit | ex01/RPN.cpp:45 | `std::isdigit` in the C locale; a digit is a single byte |
| Chars.DigitCharacters | ex00/BitcoinExchange.cpp:22 | the digits are exactly the ten characters '0' to '9' |
| Chars.IsSpace | ex00/BitcoinExchange.cpp:14 | `std::isspace` in the C locale; a whitespace character is a single byte and not a digit |
| Chars.Utf8Length | ex01/RPN.cpp:40 | a character takes one to four bytes, one exactly when it is ASCII |
| Chars.ByteLength | ex01/RPN.cpp:40 | `tok.size()` counts bytes: at least the number of characters, and 1 exactly for a single ASCII character |
| Chars.DigitValue | ex01/RPN.cpp:45-46 | a digit character's value `c - '0'` is in 0..9, and is 0 exactly for '0' |
| Chars.DigitChar | ex01/RPN.cpp:46 | the inverse of `c - '0'`: the character for a value in 0..9 is a digit with that value; it writes the digits of `FormatYMD` and `Postfix` |
| Chars.DecimalValueSnoc | ex02/PmergeMe.cpp:26 | appending a digit multiplies the value by ten and adds the digit |
| Chars.DecimalValue | ex02/PmergeMe.cpp:23-27 | the value of a digit string of width w lies in 0..10^w - 1 |
| Chars.PrefixValueAtMost | ex02/PmergeMe.cpp:23-27 | the value accumulated over a prefix never exceeds the value of the whole digit string |
| Chars.LeadingNonZeroIsPositive | ex02/PmergeMe.cpp:28 | a non-empty digit string not starting with '0' has a value of at least 1, so the `val <= 0` rejection never fires after `isPositiveInteger` |
| PmergeMe.IsPositiveInteger | ex02/PmergeMe.cpp:36-43 | true iff the string is non-empty, all digits, and its first character is not '0' |
| PmergeMe.AccumulateDigits | ex02/PmergeMe.cpp:21-27 | the overflow check `val > (INT_MAX - digit) / 10` fails iff the decimal value exceeds INT_MAX; otherwise the result is that value |
| PmergeMe.ParseToken | ex02/PmergeMe.cpp:19-28 | one argument passes the three checks iff it is a positive integer text with a value in 1..INT_MAX, and then yields that value |
| PmergeMe.ParseArgs | ex02/PmergeMe.cpp:10-34 | succeeds iff there is at least one argument, each is a positive integer text with a value in 1..INT_MAX, and no value repeats; on success it returns the values in argument order, all positive and pairwise distinct |
| PmergeMe.RejectToken | ex02/PmergeMe.cpp:19-28 | one malformed, zero or overflowing argument makes the whole argument list rejected |
| PmergeMe.RejectRepeat | ex02/PmergeMe.cpp:30 | a value equal to an earlier one makes the whole argument list rejected |
| PmergeMe.DistinctByIndex | ex02/PmergeMe.cpp:15 | values that differ at every pair of positions form a duplicate-free sequence |
| PmergeMe.MakePair | ex02/PmergeMe.cpp:59-63 | a pair has `small <= big`, `big` is one of the two inputs, and it is initially unused |
| PmergeMe.MakePairElems | ex02/PmergeMe.cpp:59-63 | a pair holds exactly its two input values |
| PmergeMe.PairsElems | ex02/PmergeMe.cpp:58-65 | pairs built from consecutive elements hold exactly the elements of the prefix they cover |
| PmergeMe.BuildPairs | ex02/PmergeMe.cpp:50-66 | `|v|/2` pairs, pair i built from `v[2i]` and `v[2i+1]` with `small <= big`; a straggler iff `|v|` is odd, equal to the last element; pairs plus straggler hold exactly the input's elements |
| PmergeMe.SortBigs | ex02/PmergeMe.cpp:68-73 | the big elements, recursively sorted: increasing and a permutation of the pairs' bigs |
| PmergeMe.FindUnused | ex02/PmergeMe.cpp:80-86 | the first unused pair with the target big, or the end when none |
| PmergeMe.TargetAvailable | ex02/PmergeMe.cpp:78-86 | when the bigs are a duplicate-free permutation of the pairs' bigs, every target still has an unused pair |
| PmergeMe.ClearMarks | ex02/PmergeMe.cpp:89 | every `used` flag reset and nothing else changed |
| PmergeMe.ElemsOfPermutation | ex02/PmergeMe.cpp:75-90 | a permutation of pairs holds the same elements |
| PmergeMe.ReorderPairsByBigs | ex02/PmergeMe.cpp:75-90 | all flags reset and every result pair taken from the input; when the bigs are a duplicate-free permutation of the unused pairs' bigs, the result is a permutation of the pairs whose bigs are exactly `bigs` in order |
| PmergeMe.Descending | ex02/PmergeMe.cpp:116-124 | the countdown `hi, hi-1, ..., lo` has the right length and entries |
| PmergeMe.JacobsthalNumbers | ex02/PmergeMe.cpp:95-100 | for n >= 2 the generator stops at `[0, 1, 1]` |
| PmergeMe.WindowPass | ex02/PmergeMe.cpp:101-114 | starts with 0, each later index is below n and inside some window `(J[k-1], J[k]]`; a sequence that stops growing yields only `[0]` |
| PmergeMe.JacobsthalOrder | ex02/PmergeMe.cpp:92-126 | the schedule is `[]` for n = 0, `[0]` for n = 1, and `[0, n-1, ..., 2]` otherwise |
| PmergeMe.DescendingExtend | ex02/PmergeMe.cpp:119-123 | extending the countdown by its next index |
| PmergeMe.DescendingBelow | ex02/PmergeMe.cpp:120 | an index below the countdown's range is not already in the order, so `find` never rejects a candidate |
| PmergeMe.ScheduleEntries | ex02/PmergeMe.cpp:92-126 | schedule length is n for n <= 1 and n-1 otherwise; entries are below n and distinct; every index except 1 is scheduled and 1 never is |
| PmergeMe.LowerBound | ex02/PmergeMe.cpp:129-130 | `std::lower_bound` within `[0, hi)`: every element before the result is below x, every later one up to hi is at least x |
| PmergeMe.InsertKeepsIncreasing | ex02/PmergeMe.cpp:131 | inserting between the smaller and the larger elements keeps the chain increasing |
| PmergeMe.BoundedInsert | ex02/PmergeMe.cpp:128-132 | the value is inserted at one position and nothing else changes (multiset plus the value); if it is new and not above the bound, the chain stays increasing |
| PmergeMe.SmallsDistinct | ex02/PmergeMe.cpp:154-157 | with distinct elements, no two pairs share their small |
| PmergeMe.InsertPairSmall | ex02/PmergeMe.cpp:146-151 | inserting one pending small keeps the chain increasing, adds exactly that element and removes it from the pending ones |
| PmergeMe.StillPending | ex02/PmergeMe.cpp:146-151 | inserting the small of one scheduled pair leaves the smalls of all later scheduled pairs pending |
| PmergeMe.InsertScheduled | ex02/PmergeMe.cpp:144-152 | the scheduled bounded insertions keep the chain increasing and every value accounted for, in the chain or still pending |
| PmergeMe.PendingTail | ex02/PmergeMe.cpp:153-161 | after the safety pass has looked at pair i, only smalls of later pairs are still pending |
| PmergeMe.InsertMissingSmalls | ex02/PmergeMe.cpp:153-161 | the safety pass inserts exactly the smalls still missing: the chain becomes increasing and holds every big and small |
| PmergeMe.InsertSmalls | ex02/PmergeMe.cpp:134-162 | empty pairs leave the chain unchanged; otherwise the result is increasing and holds exactly the pairs' bigs and smalls |
| PmergeMe.MainChain | ex02/PmergeMe.cpp:140-142 | the chain starts as the bigs of the pairs, in pair order |
| PmergeMe.InsertStraggler | ex02/PmergeMe.cpp:175-178 | the straggler inserted at its lower bound: increasing, with the multiset plus the straggler |
| PmergeMe.InsertAtCount | ex02/PmergeMe.cpp:177 | inserting at any position adds exactly that element |
| PmergeMe.FordJohnson | ex02/PmergeMe.cpp:165-180 | inputs of size <= 1 are unchanged; the result is increasing and a permutation of the input |
| PmergeMe.IncreasingPermutationUnique | ex02/main.cpp:44 | two increasing permutations of the same elements are equal |
| PmergeMe.SortBothContainers | ex02/main.cpp:34-47 | the vector and deque sorts return equal sequences, each increasing and a permutation of the input |
| PmergeMe.SortIdempotent | ex02/PmergeMe.cpp:165-180 | sorting an already sorted output returns it unchanged |
| RPN.IsOperator | ex01/RPN.cpp:14-16 | an operator character is neither a digit nor whitespace, and is a single byte |
| RPN.TruncDivRemainder | ex01/RPN.cpp:26 | the C++ quotient leaves a remainder smaller than the divisor in magnitude, with the dividend's sign |
| RPN.TruncDivUnique | ex01/RPN.cpp:26 | that remainder property determines the quotient |
| RPN.TruncDivNegate | ex01/RPN.cpp:26 | negating the dividend negates the quotient (truncation toward zero) |
| RPN.ApplyOp | ex01/RPN.cpp:18-29 | fails iff the character is not an operator, or it is '/' with a zero divisor, naming the right error; otherwise it gives `a+b`, `a-b`, `a*b` or the truncating `a/b`, where `a` is the left operand |
| RPN.CString | ex01/RPN.cpp:35 | `expr.c_str()` as a C string: the longest prefix without NUL, stopping at the first NUL when there is one |
| RPN.CStringWhole | ex01/RPN.cpp:35 | a text without NUL is read whole |
| RPN.WordLength | ex01/RPN.cpp:39 | the length of the leading run of non-whitespace, ending at whitespace or at the end |
| RPN.Tokens | ex01/RPN.cpp:35-39 | every token extracted is non-empty and contains no whitespace |
| RPN.WordLengthOfWord | ex01/RPN.cpp:39 | a token followed by whitespace is read to its end |
| RPN.TokensOfUnwords | ex01/RPN.cpp:35-39 | splitting space-separated tokens gives the tokens back |
| RPN.TokensOfBlank | ex01/RPN.cpp:39 | whitespace alone yields no token |
| RPN.WordLengthPrefix | ex01/RPN.cpp:39 | whitespace after a text does not change the length of its leading word |
| RPN.LeadingWord | ex01/RPN.cpp:39 | a text starting with a word and followed by whitespace has that word as its first token |
| RPN.TokensBeforeSpace | ex01/RPN.cpp:39 | the tokens of a text followed by a text starting with whitespace are the tokens of the one, then those of the other |
| RPN.TokensSplit | ex01/RPN.cpp:39 | a whitespace character splits the tokens: the tokens of the left side, then those of the right |
| RPN.Step | ex01/RPN.cpp:40-60 | one token: a byte length other than 1, a bad character, and too few operands are errors; a digit pushes its value; an operator replaces the top two values by `applyOp(second, top)` or fails with its error |
| RPN.Run | ex01/RPN.cpp:39-61 | the token loop never fails with the empty-expression or the leftover-values error |
| RPN.Evaluation | ex01/RPN.cpp:31-67 | the empty-expression error exactly for the empty string; for a non-empty one, a failing run's error is passed on, a run that leaves one value gives that value, and a run that leaves any other number of values gives the leftover-values error; a result always comes from a run that leaves exactly it |
| RPN.Evaluate | ex01/RPN.cpp:31-67 | the token loop over the text before the first NUL computes exactly `Evaluation`: empty expression error, the first token error, the size check, then the single value |
| RPN.RunDepth | ex01/RPN.cpp:45-56 | a successful run changes the stack depth by +1 per digit and -1 per operator |
| RPN.EvaluationBalance | ex01/RPN.cpp:63-66 | an accepted expression has exactly one more digit than operators |
| RPN.BlankExpression | ex01/RPN.cpp:32-33 | a non-empty whitespace-only expression is not the empty-expression error but the leftover-values one |
| RPN.MultiByteToken | ex01/RPN.cpp:40-41 | a one-character token that is not ASCII is more than one byte and fails with the token length error |
| RPN.NulEndsExpression | ex01/RPN.cpp:35 | `"1\0"` and `"1\0 +"` evaluate to 1: text after a NUL is never read |
| RPN.NulOnlyExpression | ex01/RPN.cpp:32-64 | `"\0"` is not empty, has no tokens, and fails with leftover values |
| RPN.Postfix | ex01/RPN.cpp:40-48 | the postfix text of an expression tree is non-empty and made of single-character tokens, each a digit or an operator |
| RPN.RunPostfix | ex01/RPN.cpp:39-61 | running a tree's postfix tokens pushes the tree's value, or fails with its error |
| RPN.UnwordsWithoutNul | ex01/RPN.cpp:35 | joining NUL-free tokens with spaces gives a NUL-free text |
| RPN.PostfixText | ex01/RPN.cpp:35-39 | the postfix text of a tree is non-empty and reads back as its postfix tokens |
| RPN.EvaluatePostfix | ex01/RPN.cpp:31-67 | evaluating the space-separated postfix text of any single-digit expression tree gives the tree's value (or its division error) |
| Exchange.TrimLeftShape | ex00/BitcoinExchange.cpp:13-14 | dropping leading whitespace leaves a suffix with no whitespace in front, and only whitespace is dropped |
| Exchange.TrimRightShape | ex00/BitcoinExchange.cpp:15-16 | dropping trailing whitespace leaves a prefix with no whitespace at the end, and only whitespace is dropped |
| Exchange.Trim | ex00/BitcoinExchange.cpp:12-18 | the two index loops return whitespace trimmed at both ends |
| Exchange.TrimmedIsSlice | ex00/BitcoinExchange.cpp:12-18 | the trimmed string is a contiguous substring, everything removed is whitespace, and it neither starts nor ends with whitespace |
| Exchange.TrimmedIdempotent | ex00/BitcoinExchange.cpp:12-18 | trimming twice equals trimming once |
| Exchange.IsDigits | ex00/BitcoinExchange.cpp:20-26 | true iff the string is non-empty and all digits |
| Exchange.IsLeap | ex00/BitcoinExchange.cpp:44-46 | Gregorian: every leap year is divisible by 4; years divisible by 4 but not 100 are leap, centuries are leap only when divisible by 400 |
| Exchange.LeapCycle | ex00/BitcoinExchange.cpp:44-46 | the leap rule repeats every 400 years |
| Exchange.DaysInMonth | ex00/BitcoinExchange.cpp:48-53 | February has 29 days in a leap year and 28 otherwise; the other months have 30 or 31 as in the table; a month outside 1..12 gives 0 |
| Exchange.YearLength | ex00/BitcoinExchange.cpp:48-53 | the twelve months add up to 366 days in a leap year and 365 otherwise |
| Exchange.ParseYMD | ex00/BitcoinExchange.cpp:55-65 | succeeds iff the string has length 10, '-' at 4 and 7 and digit fields; the fields' values are then at most 9999, 99 and 99 |
| Exchange.DecimalOfDigits | ex00/BitcoinExchange.cpp:61-63 | reading back a zero-padded number gives the number |
| Exchange.DigitsOfDecimal | ex00/BitcoinExchange.cpp:61-63 | writing a field's value at the field's width gives the field back |
| Exchange.ParseFormatted | ex00/BitcoinExchange.cpp:55-65 | parsing the `YYYY-MM-DD` text of any fields yields those fields |
| Exchange.FormattedParsed | ex00/BitcoinExchange.cpp:55-65 | every accepted string is the `YYYY-MM-DD` text of the fields it yields |
| Exchange.IsValidDate | ex00/BitcoinExchange.cpp:67-75 | a valid date parses |
| Exchange.ValidFormatted | ex00/BitcoinExchange.cpp:67-75 | a formatted date is valid iff its month is in 1..12 and its day in 1..daysInMonth |
| Exchange.ValidDates | ex00/BitcoinExchange.cpp:67-75 | the valid strings are exactly the `YYYY-MM-DD` texts of calendar days |
| Exchange.LessIrreflexive | ex00/BitcoinExchange.hpp:16 | the key order is irreflexive |
| Exchange.LessAsymmetric | ex00/BitcoinExchange.hpp:16 | the key order is asymmetric |
| Exchange.LessTransitive | ex00/BitcoinExchange.hpp:16 | the key order is transitive |
| Exchange.LessTotal | ex00/BitcoinExchange.hpp:16 | any two keys are ordered one way, or are equal |
| Exchange.LessLexicographic | ex00/BitcoinExchange.hpp:16 | `operator<` as the standard defines it: a proper prefix, or the smaller character at the first difference |
| Exchange.FirstNotBelow | ex00/BitcoinExchange.cpp:78 | `lower_bound`: every entry before the result has a key below the date, and the entry at the result does not |
| Exchange.NotBelowFrom | ex00/BitcoinExchange.cpp:78 | in key order, no entry from the lower bound on is below the date |
| Exchange.AboveFrom | ex00/BitcoinExchange.cpp:78-83 | when the lower bound is not the date itself, every entry from it on is after the date |
| Exchange.FloorAtKey | ex00/BitcoinExchange.cpp:79-81 | an exact hit is the only entry with that key |
| Exchange.NoFloor | ex00/BitcoinExchange.cpp:83 | a lower bound at the first entry that is not the date means every entry is after the date |
| Exchange.FloorBefore | ex00/BitcoinExchange.cpp:84-86 | otherwise the entry before the lower bound is the latest one not after the date |
| Exchange.BitcoinExchange.GetRateForDate | ex00/BitcoinExchange.cpp:77-87 | no rate iff every stored date is after the query; the exact date's rate when stored, stated over the entries and over the map `Contents()`; otherwise the rate of the greatest stored date not after the query |
| Exchange.BitcoinExchange.constructor | ex00/BitcoinExchange.cpp:9 | the table starts empty and ordered |
| Exchange.UpdatesCommute | ex00/BitcoinExchange.cpp:123 | updates of two different keys commute |
| Exchange.AsMapLookup | ex00/BitcoinExchange.cpp:123 | the map of an ordered table holds exactly the table's dates, each with its entry's rate |
| Exchange.StoreReplace | ex00/BitcoinExchange.cpp:123 | overwriting a stored date keeps the order and updates the map at that key |
| Exchange.OrderedCons | ex00/BitcoinExchange.cpp:123 | an entry below all those of an ordered table can go in front |
| Exchange.InsertBehindHead | ex00/BitcoinExchange.cpp:123 | inserting behind the first entry leaves it first and below the rest |
| Exchange.InsertOrdered | ex00/BitcoinExchange.cpp:123 | a new date put at its lower bound keeps the keys in order |
| Exchange.StoreInsert | ex00/BitcoinExchange.cpp:123 | storing a new date there keeps the order and adds it to the map |
| Exchange.BitcoinExchange.Store | ex00/BitcoinExchange.cpp:123 | `_rates[date] = rate`: the table stays ordered, its map becomes the old map updated at `date`, and looking `date` up then gives `rate` |

## Left out

- The `main.cpp` files are not modelled: argv handling, printing, `gettimeofday` timing and the try/catch plumbing. `SortBothContainers` models only the container agreement check.
- `loadCSV` and `processInputFile` are not modelled. They involve file streams, stdout, and the `value < 0`, `value > 1000` and `value * rate` logic on doubles. Only their store into `_rates` is modelled, by `Store`.
- `parseDouble` and `formatDouble` are not modelled: they rely on `strtod`, `errno` and stream formatting of doubles.
- Rates are an opaque type parameter. The lookup never computes with them.
- The deque functions are the vector functions with another container, and are not repeated.
- The null-pointer test in `isPositiveInteger` has no counterpart, because a Dafny string cannot be null.
- `iss >> tok` is modelled by the `Tokens` function. The stream itself is not modelled.
- RPN.Step: a Dafny `string` is a sequence of Unicode scalar values, and the C++ bytes are taken to be its UTF-8 encoding. Byte strings that are not valid UTF-8 have no counterpart. A multi-byte character is one token of several bytes, so it fails as `tok.size() != 1` does.
- RPN.Evaluate: the same UTF-8 reading of the expression applies. The NUL cut of `c_str()` is modelled.
- RPN computes in `long`, which is 64 bits. The model uses unbounded integers, so it does not model overflow of intermediate results.
- Comparison-count optimality of Ford–Johnson is not stated. The code does not promise it, and its schedule is degenerate.
- PmergeMe.FordJohnson: proved for duplicate-free inputs only, which is all `parseArgs` lets through. With a repeated value, the safety pass's `find` can skip a small element whose value is already in the chain. The model does not describe what the code returns then.
- PmergeMe.InsertSmalls: assumes the pairs' elements are all distinct, for the same reason.
- PmergeMe.SortBigs: assumes the bigs are distinct, for the same reason.
- PmergeMe.ReorderPairsByBigs: the exact reordering is stated only when `bigs` is a duplicate-free permutation of the unused pairs' bigs. That is how `fordJohnson` calls it.
- Exchange.IsValidDate: its own contract only says that a valid date parses. The exact condition is stated by `ValidFormatted` and `ValidDates`.
- Exchange.BitcoinExchange.GetRateForDate: requires the table to be in key order (`Valid()`). A `std::map` always is, and the constructor and `Store` keep it so.

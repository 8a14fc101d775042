# CPP09 in Dafny

A model of the three programs of the CPP09 exercises, with proofs of what
their code promises:

- **PmergeMe (ex02).** The template `fordJohnsonSort` sorts an `int`
  container. The model covers:
  - the odd straggler;
  - the (winner, loser) pairs;
  - the exchange sort of the pairs by winner;
  - the main chain and the pend, with `pend[0]` in front;
  - the `lower_bound` insertions in the order built by
    `buildInsertionOrder` from `generateJacobsthal`.

  `parseInput` is the argument parser that fills the two member
  containers. Module `Jacobsthal` (jacobsthal.dfy) holds the insertion
  order. Module `PmergeMe` (pmerge_me.dfy) holds the sort and the parser.
- **RPN (ex01).** A stack machine over single-digit operands and
  `+ - * /`. Its stack is a member of the calculator object and is never
  cleared. Module `Rpn` (rpn.dfy) has two layers:
  - the class `Calculator`, with the `_stack` member as a `seq<int>` field
    (top last) and `performOperation`/`calculate` as methods;
  - a functional evaluator `Eval` that those methods are proved against.
- **Bitcoin exchange (ex00).** The code validates `YYYY-MM-DD` dates with
  stream extraction and the Gregorian leap rule. It keeps a
  `std::map<std::string, float>` of rates, looks up the closest database
  date that is not after a query date, and classifies each input line.
  Module `BitcoinExchange` (bitcoin_exchange.dfy) models this, with the
  class `Exchange` holding the `_data` map.

Module `Characters` (characters.dfy) holds the C-locale character classes
and decimal values that all three programs use. Module `Wrappers` (wrappers.dfy) holds
an `Option` type.

How the model is shaped:

- **The sort works on values.** `FordJohnsonSort` takes the container as a
  `seq<int>` and returns the new contents. This stands for the reference
  parameter, which the template overwrites at its end.
- **Loops become methods with `while` loops.** The loops of the template
  and of `buildInsertionOrder` are modelled by methods. The nested loops of
  `buildInsertionOrder` stay together in one method each (`EmitBlocks`,
  `AppendMissed`). The exchange sort's nested loops
  (ex02/inc/PmergeMe.hpp:103-110) are split: `SortPairs` holds the outer
  loop and `PlaceSmallest` the inner one.
- **Each method is proved against a specification.** Some methods are tied
  to a function of their inputs: `GenerateJacobsthal` to `Jacobsthal`,
  `BuildInsertionOrder` to `InsertionOrder`, `MakePairs` to `PairsOf` and
  `Calculate` to `Eval`. Others state the property the source relies on.
  `SortPairs` and `FordJohnsonSort` return a sorted permutation. `InsertPend`
  keeps the chain sorted and adds the picked values. `LowerBound` returns
  the first position not below the value.
- **The properties of the specification functions live in lemmas.**

Two facts about the sort's code shape what is proved:

- **No recursion on the winners.** `fordJohnsonSort` does not recurse on the
  winners: it orders the pairs with a quadratic exchange sort
  (ex02/inc/PmergeMe.hpp:102-110), and every binary search spans the whole
  chain, so no bound on comparisons is claimed. The model proves what the
  code guarantees: the output is sorted and is a permutation of the input.
- **Equal values go before existing ones.** `std::lower_bound` places each
  value before any equal value already in the chain (`InsertAtLowerBound`).

## Model

| member | source | states |
|---|---|---|
| Jacobsthal.Jacobsthal | ex02/src/PmergeMe.cpp:34-52 | the generated terms are the Jacobsthal numbers from the third on: term i satisfies 3 * t = 2^(i+2) + (-1)^(i+1) |
| Jacobsthal.JacobsthalShape | ex02/src/PmergeMe.cpp:34-52 | n <= 0 gives []; n == 1 gives [1]; n >= 2 starts 1, 3 and each later term is the previous plus twice the one before; every term after the first two is below n, and the next term would be >= n |
| Jacobsthal.JacobsthalIncreasing | ex02/src/PmergeMe.cpp:42-50 | the generated sequence is strictly increasing |
| Jacobsthal.JacClosedForm | ex02/src/PmergeMe.cpp:46 | the recurrence term k satisfies 3 * J(k) = 2^(k+2) + (-1)^(k+1), so the terms are the Jacobsthal numbers 1, 3, 5, 11, 21, ... |
| Jacobsthal.JacobsthalFitsInt | ex02/src/PmergeMe.cpp:44-50 | for 2 <= n <= 1431655765 every term the loop computes, including the first term >= n that ends it, is at most 1431655765, so the `int` arithmetic cannot overflow |
| Jacobsthal.TermsUpTo | ex02/src/PmergeMe.cpp:44-50 | while n is at most some term J(k), the loop computes no term above J(k) |
| Jacobsthal.JacAroundIntMax | ex02/src/PmergeMe.cpp:46 | the terms around the `int` limit are 1431655765 and then 2863311531, which is above 2147483647 |
| Jacobsthal.GenerateJacobsthal | ex02/src/PmergeMe.cpp:34-52 | the while(true) loop returns exactly the sequence characterised by JacobsthalShape |
| Jacobsthal.BuildInsertionOrder | ex02/src/PmergeMe.cpp:54-94 | the nested loops return exactly InsertionOrder(size) |
| Jacobsthal.EmitBlocks | ex02/src/PmergeMe.cpp:60-77 | the walk over the terms emits each block (lastLimit, min(J, size-1)] in descending order, lastLimit starting at 1 |
| Jacobsthal.AppendMissed | ex02/src/PmergeMe.cpp:79-91 | the safety loop appends, in ascending order, every index 1 .. size-1 the walk did not emit |
| Jacobsthal.WalkEmitsRange | ex02/src/PmergeMe.cpp:60-77 | the walk emits every index 2 .. lastLimit exactly once, and lastLimit stays within 1 .. size-1 |
| Jacobsthal.MissingShape | ex02/src/PmergeMe.cpp:79-91 | after the walk the safety loop appends exactly 1 followed by lastLimit+1 .. size-1 |
| Jacobsthal.InsertionOrder | ex02/src/PmergeMe.cpp:54-94 | every index in the order is a pend index in 1 .. size-1, so the bounds test of the insertion loop never skips one |
| Jacobsthal.InsertionOrderShape | ex02/src/PmergeMe.cpp:54-94 | for size >= 2 the order is the walk's blocks, then 1, then the indices above the last limit in ascending order |
| Jacobsthal.InsertionOrderIsPermutation | ex02/src/PmergeMe.cpp:54-94 | empty for size <= 1; for size >= 2 a permutation of 1 .. size-1 |
| Jacobsthal.InsertionOrderCoversOnce | ex02/src/PmergeMe.cpp:54-94 | for size >= 2: length size-1, members are exactly 1 .. size-1 (so never 0), no index repeated |
| Jacobsthal.WalkOfFive | ex02/src/PmergeMe.cpp:63-77 | for size 5 the walk emits [3, 2] and ends at limit 3 |
| Jacobsthal.InsertionOrderOfFive | ex02/src/PmergeMe.cpp:54-94 | size 5 gives [3, 2, 1, 4] |
| Jacobsthal.WalkOfSix | ex02/src/PmergeMe.cpp:63-77 | for size 6 the walk emits [3, 2, 5, 4] and ends at limit 5 |
| Jacobsthal.InsertionOrderOfSix | ex02/src/PmergeMe.cpp:54-94 | size 6 gives [3, 2, 5, 4, 1] |
| PmergeMe.FordJohnsonSort | ex02/inc/PmergeMe.hpp:68-164 | the result is non-decreasing, has the same multiset and length as the input, a container of 0 or 1 elements comes back unchanged, and so does a container that is already sorted |
| PmergeMe.SortPaired | ex02/inc/PmergeMe.hpp:87-153 | on an even, non-empty container, pairing, sorting the pairs, splitting, putting pend[0] in front and the Jacobsthal insertions give a sorted permutation |
| PmergeMe.PairsOf | ex02/inc/PmergeMe.hpp:87-96 | the pairing gives half as many pairs as elements, each with its winner at least its loser |
| PmergeMe.PairsOfFacts | ex02/inc/PmergeMe.hpp:87-96 | pair k is (max, min) of elements 2k and 2k+1; there are n/2 pairs, each with winner >= loser, and together they hold the container's multiset |
| PmergeMe.MakePairs | ex02/inc/PmergeMe.hpp:87-96 | the pairing loop builds exactly PairsOf(container) |
| PmergeMe.SortPairs | ex02/inc/PmergeMe.hpp:102-110 | after the nested swap loops the pairs are ascending by winner, are a permutation of the pairs before, and each pair keeps winner >= loser |
| PmergeMe.PlaceSmallest | ex02/inc/PmergeMe.hpp:105-109 | one pass of the inner loop puts a smallest remaining winner at position i, keeping the sorted prefix and the pairs' multiset |
| PmergeMe.SplitPairs | ex02/inc/PmergeMe.hpp:112-119 | the main chain is the winners and the pend the losers, in pair order |
| PmergeMe.WinnersSorted | ex02/inc/PmergeMe.hpp:112-119 | the winners of pairs sorted by winner form a sorted main chain |
| PmergeMe.FirstLoserLeadsChain | ex02/inc/PmergeMe.hpp:126-131 | pend[0] <= mainChain[0], so putting it in front keeps the chain sorted |
| PmergeMe.LowerBound | ex02/inc/PmergeMe.hpp:149 | the binary search returns the first position whose element is not less than the value |
| PmergeMe.InsertAtLowerBound | ex02/inc/PmergeMe.hpp:149-150 | the chain stays sorted, gains exactly the value (length + 1), and the value goes before every equal value already there |
| PmergeMe.InsertKeepsSorted | ex02/inc/PmergeMe.hpp:149-150 | inserting at a lower-bound position keeps a sorted sequence sorted |
| PmergeMe.InsertPend | ex02/inc/PmergeMe.hpp:142-152 | the insertion loop keeps the chain sorted and adds exactly the pend values its order picks |
| PmergeMe.Picked | ex02/inc/PmergeMe.hpp:142-152 | the insertions pick at most one value per entry of the order, and every value picked is an element of pend[1..] |
| PmergeMe.PickedStep | ex02/inc/PmergeMe.hpp:144-148 | an index <= 0 or >= pend.size() adds nothing; any other index adds pend[idx] |
| PmergeMe.PickedPermutation | ex02/inc/PmergeMe.hpp:142-152 | two orders holding the same indices pick the same pend values |
| PmergeMe.PlanPicksRestOfPend | ex02/inc/PmergeMe.hpp:134-153 | the order from buildInsertionOrder(pend.size()) picks exactly pend[1..] |
| PmergeMe.SortedPermutationUnique | ex02/inc/PmergeMe.hpp:68-164 | a sorted permutation is unique, so the vector and the deque end with the same sequence |
| PmergeMe.AcceptedChecks | ex02/src/PmergeMe.cpp:100-102 | an accepted argument is non-empty and made of characters of "0123456789"; an empty argument or one holding any other character is rejected |
| PmergeMe.FirstRejected | ex02/src/PmergeMe.cpp:98-106 | the index of the first argument parseInput rejects: every earlier one is accepted, that one is not |
| PmergeMe.Values | ex02/src/PmergeMe.cpp:104-109 | the values of accepted arguments, in order, each in 0 .. 2147483647 and equal to its decimal value |
| PmergeMe.ParseArgument | ex02/src/PmergeMe.cpp:100-106 | an argument is accepted exactly when it is non-empty, all digits and at most 2147483647, and its value is the decimal value |
| PmergeMe.DecimalRoundTrip | ex02/src/PmergeMe.cpp:100-106 | every value 0 .. 2147483647 written in decimal is accepted and parses back to itself |
| PmergeMe.Containers.ParseInput | ex02/src/PmergeMe.cpp:96-111 | both containers get the accepted values appended in argument order (so they hold the same sequence); it fails exactly when some argument is rejected, keeping the values appended before it |
| Rpn.IsOperator | ex01/src/RPN.cpp:31-34 | every operator token is one character long |
| Rpn.OperatorIsOneCharacter | ex01/src/RPN.cpp:31-34 | isOperator holds exactly for the one-character strings "+", "-", "*", "/" |
| Rpn.Apply | ex01/src/RPN.cpp:36-58 | performOperation never reports an invalid token; on an error the stack is a prefix of the old one (untouched, or both operands popped); everything below the top two values is kept |
| Rpn.ApplyErrors | ex01/src/RPN.cpp:36-58 | too few operands exactly when fewer than two values are on the stack, and then the stack is unchanged; division by zero exactly for "/" with a zero top, after both operands are popped |
| Rpn.ApplyReplacesTopTwo | ex01/src/RPN.cpp:42-52 | a successful operation pops two values and pushes one, leaving the rest of the stack as it was |
| Rpn.CDiv | ex01/src/RPN.cpp:57 | the truncating quotient is never larger than the dividend in magnitude, and is zero or has the sign of a times b |
| Rpn.CDivRemainder | ex01/src/RPN.cpp:57 | C++ division truncates toward zero: the remainder is smaller than the divisor in magnitude and has the dividend's sign |
| Rpn.CDivExamples | ex01/src/RPN.cpp:57 | -5/2 is -2 in C++ where Euclidean division gives -3 |
| Rpn.DivisionPastIntMax | ex01/src/RPN.cpp:53-57 | dividing INT_MIN by -1 pushes 2147483648, a value outside `int`, where the C++ division is undefined |
| Rpn.Calculator.PerformOperation | ex01/src/RPN.cpp:36-59 | the stack member becomes Apply(op, old stack), and the call succeeds exactly when Apply reports no error |
| Rpn.Calculator.Calculate | ex01/src/RPN.cpp:61-100 | the token loop leaves the stack member as Eval over the whitespace-separated tokens leaves it, and prints the value or "Error" as Report of that run |
| Rpn.NextToken | ex01/src/RPN.cpp:66 | one extraction `ss >> token` returns the next whitespace-separated token and advances past it, or finds none at the end |
| Rpn.Tokens | ex01/src/RPN.cpp:63-66 | every token `ss >> token` extracts is a non-empty run of non-space characters |
| Rpn.TokensOfJoin | ex01/src/RPN.cpp:63-66 | splitting on whitespace undoes joining non-empty words with spaces |
| Rpn.Step | ex01/src/RPN.cpp:68-88 | a token is invalid exactly when it is neither one digit nor one operator, and an invalid token leaves the stack as it was |
| Rpn.Eval | ex01/src/RPN.cpp:66-89 | a token loop that ends without error read only one-digit and one-operator tokens |
| Rpn.Report | ex01/src/RPN.cpp:91-98 | a value is printed only when no error occurred and the stack holds exactly that value; any error reports "Error" |
| Rpn.EvalAppend | ex01/src/RPN.cpp:66-89 | evaluation stops at the first failing token; otherwise the rest continues from the stack the prefix left |
| Rpn.EvalDepth | ex01/src/RPN.cpp:66-76 | after an error-free prefix the depth is the starting depth plus digits minus operators |
| Rpn.TooFewOperandsExactly | ex01/src/RPN.cpp:39-76 | an operator fails for too few operands exactly when the depth before it (digits minus operators so far) is below 2 |
| Rpn.InvalidTokenStops | ex01/src/RPN.cpp:84-88 | after tokens that raised no error, a token that is neither one digit nor one operator stops the run with the stack those tokens left, and "Error" is reported |
| Rpn.InvalidTokenExamples | ex01/src/RPN.cpp:68-88 | "12", "a" and "+-" are invalid tokens |
| Rpn.ReportNeedsOneValue | ex01/src/RPN.cpp:91-98 | a run without error prints a value exactly when the starting depth plus digits minus operators is 1; leaving none or two and more values reports "Error" |
| Rpn.EvalPostfix | ex01/src/RPN.cpp:61-89 | evaluating the postfix form of an expression pushes the expression's value, with C++ truncating division |
| Rpn.EvalPostfixFails | ex01/src/RPN.cpp:53-57 | evaluating the postfix form of an expression with a zero divisor stops with a division-by-zero error |
| Rpn.CalculatesExpression | ex01/src/RPN.cpp:61-100 | the postfix text of any single-digit expression prints its value when it has one, and reports "Error" exactly when some divisor is zero |
| BitcoinExchange.Lt | ex00/src/BitcoinExchange.cpp:118 | the `std::string` order used by upper_bound: no string comes before itself, and a proper prefix comes before the longer string |
| BitcoinExchange.LtTotal | ex00/src/BitcoinExchange.cpp:118 | std::string order is total: two strings are equal or one comes first |
| BitcoinExchange.LtTransitive | ex00/src/BitcoinExchange.cpp:118 | std::string order is transitive |
| BitcoinExchange.LtAsymmetric | ex00/src/BitcoinExchange.cpp:118 | std::string order is asymmetric |
| BitcoinExchange.FloorKey | ex00/src/BitcoinExchange.cpp:118-127 | upper_bound stepped back once gives a database key not after the date that is the greatest such key; none exists when every key is after the date |
| BitcoinExchange.FloorKeyNoneIffTooEarly | ex00/src/BitcoinExchange.cpp:118-127 | "date too early" exactly when every database date comes after the query date |
| BitcoinExchange.FloorKeyOfPresentDate | ex00/src/BitcoinExchange.cpp:118-123 | a date in the database uses its own rate |
| BitcoinExchange.Extract | ex00/src/BitcoinExchange.cpp:36-42 | a value read from a field of w characters is below 10^w in magnitude, so a date field (at most four characters) always fits an `int` |
| BitcoinExchange.ExtractReadsLeadingDigits | ex00/src/BitcoinExchange.cpp:36-42 | a field that starts with digits reads as their value whatever follows ("1a" reads 1) |
| BitcoinExchange.ExtractNeedsLeadingDigit | ex00/src/BitcoinExchange.cpp:36-42 | a field that does not start with whitespace, a digit or a sign followed by a digit fails to read, whatever follows ("a1", "-a") |
| BitcoinExchange.ExtractNeedsDigit | ex00/src/BitcoinExchange.cpp:36-42 | a field without any digit fails to read, so the date is rejected |
| BitcoinExchange.ExtractExamples | ex00/src/BitcoinExchange.cpp:36-42 | leading whitespace is skipped, a sign is read, and "a1" and "--" fail |
| BitcoinExchange.IsValidDate | ex00/src/BitcoinExchange.cpp:31-54 | every accepted date has length 10 and three readable fields that name a day of the calendar |
| BitcoinExchange.PassesChecksIffCalendarDate | ex00/src/BitcoinExchange.cpp:43-52 | the range checks accept exactly month 1 .. 12 and day 1 .. the month's length in the Gregorian calendar |
| BitcoinExchange.IsValidDateIffCalendarDate | ex00/src/BitcoinExchange.cpp:31-54 | accepted exactly when: length 10, '-' at positions 4 and 7, three readable fields, and they name a calendar day |
| BitcoinExchange.FormatDateRoundTrip | ex00/src/BitcoinExchange.cpp:31-54 | a zero-padded YYYY-MM-DD reads back as its fields and is accepted exactly when it is a calendar day |
| BitcoinExchange.LeapDay | ex00/src/BitcoinExchange.cpp:45-50 | February 29 is accepted exactly in leap years (divisible by 4 and not by 100, or by 400) |
| BitcoinExchange.ThirtyDayMonths | ex00/src/BitcoinExchange.cpp:51-52 | the 31st of April, June, September and November is rejected |
| BitcoinExchange.Find | ex00/src/BitcoinExchange.cpp:95-96 | find returns the first position of the character, or none when it does not occur |
| BitcoinExchange.RemoveSpacesKeeps | ex00/src/BitcoinExchange.cpp:104 | erasing spaces keeps a string without spaces as it is |
| BitcoinExchange.RemoveSpacesAppend | ex00/src/BitcoinExchange.cpp:104 | erasing spaces works piecewise over a concatenation |
| BitcoinExchange.DateKey | ex00/src/BitcoinExchange.cpp:102-104 | the key holds no space; for a '\|' at sep > 0 it is shorter than sep (the character before the '\|' is dropped), and a text before that character without spaces is kept as it is |
| BitcoinExchange.DateKeyDropsCharacterBeforeBar | ex00/src/BitcoinExchange.cpp:95-107 | in date + c + "\|" + rest the first '\|' is right after c, and the line is judged on date with spaces erased (c is dropped even when it is not a space) and on the number read from rest |
| BitcoinExchange.WellFormedLine | ex00/src/BitcoinExchange.cpp:95-107 | a line "date \|text" with no spaces in the date is judged on that date and on the number read from text |
| BitcoinExchange.Classify | ex00/src/BitcoinExchange.cpp:95-127 | a line without '\|' is echoed as bad input; a conversion is of a valid date and a value in 0 .. 1000, at a rate taken from the database |
| BitcoinExchange.Judge | ex00/src/BitcoinExchange.cpp:109-127 | a conversion keeps the date and the value, which pass isValidDate and 0 <= value <= 1000, and takes its rate from the database; "too early" only when no database date is at or before the date |
| BitcoinExchange.JudgeMeaning | ex00/src/BitcoinExchange.cpp:109-127 | checks in order: bad input exactly for an invalid date, then not positive exactly for value < 0, too large exactly for value > 1000; too early exactly when every database date is later; otherwise the rate of the closest earlier date |
| BitcoinExchange.BoundsAreInclusive | ex00/src/BitcoinExchange.cpp:111-115 | values 0 and 1000 pass both checks and are converted |
| BitcoinExchange.Entry | ex00/src/BitcoinExchange.cpp:70-74 | a line gives an entry exactly when it holds a comma; the key is the text before its first comma and the rate is `atof` of the text after it |
| BitcoinExchange.Loaded | ex00/src/BitcoinExchange.cpp:68-77 | loading never removes a date from the map |
| BitcoinExchange.LoadedLastWins | ex00/src/BitcoinExchange.cpp:70-76 | a date holds the rate of the last line that names it |
| BitcoinExchange.LoadedUntouched | ex00/src/BitcoinExchange.cpp:70-76 | a date that no comma line names keeps its old presence and rate; lines without a comma change nothing |
| BitcoinExchange.Exchange.LoadDatabase | ex00/src/BitcoinExchange.cpp:56-79 | the map after the line loop is the old map updated line by line |
| BitcoinExchange.Exchange.ProcessInput | ex00/src/BitcoinExchange.cpp:81-130 | one message per line, in order, each the classification of that line against the database |

## Left out

- `PmergeMe::execute`: timing with `gettimeofday`, console output, the
  "[...]" truncation and the debug line. These are I/O and clock reading.
- Comparison counts: the code neither recurses on the winners nor bounds
  the binary-search range, so no optimality claim holds for it.
- The vector/deque distinction: the template body is the same for both. It
  is modelled once on `seq<int>`, and `SortedPermutationUnique` shows that
  the two runs agree.
- PmergeMe.Containers.ParseInput: `std::atol` is modelled as the exact
  decimal value. For a digit string too long for `long`, `atol` is not
  defined by the standard, so the model rejects every value above
  2147483647. The `val < 0` test cannot fire on a digit string and has no
  counterpart. The `ErrorException` throw is modelled as a `false` result.
- Rpn.Apply: C++ `int` overflow is undefined behaviour, and the model uses
  unbounded integers. This covers `+ - *` and also `/` at
  ex01/src/RPN.cpp:57 with INT_MIN / -1. That case needs no earlier
  overflow: "0 2 -", then "2 *" thirty times, then "0 1 - /". On x86 the
  program then traps and prints nothing. The model pushes and prints
  2147483648 (`DivisionPastIntMax`).
- Jacobsthal.Jacobsthal: the model uses unbounded integers. The C++ `int`
  arithmetic at ex02/src/PmergeMe.cpp:46 overflows only when n is above
  1431655765: the loop then computes 2863311531 before the test `next >= n`
  can stop it (`JacAroundIntMax`). That needs a pend of more than 1.4e9
  elements, which no argument list can carry. Up to that bound every term
  fits (`JacobsthalFitsInt`).
- Rpn.Calculator.Calculate: the messages on `std::cout`/`std::cerr` are
  modelled as the `Outcome` value (the value, or "Error").
- Floats in the exchange stay abstract. Rates and values are `real`. The
  number read from a text is a function `atof` supplied by the caller. It
  stands for both steps of the source, `atof` and then
  `static_cast<float>`. Float rounding is the caller's to reproduce: for
  example, "1000.00001" becomes 1000.0f and passes the `> 1000` test.
  The product `val * it->second` and float printing are not modelled: a
  conversion reports the value and the rate it uses. A NaN value passes
  both checks at ex00/src/BitcoinExchange.cpp:111-115 and is converted; to
  reproduce that, the caller's `atof` must map "nan" to a value in
  0 .. 1000.
- BitcoinExchange.Extract: it models `operator>>` into an `int` without
  overflow; its contract shows the fields of a date (at most four
  characters) stay below 10000 in magnitude.
- Strings as bytes: a `std::string` is modelled as a Dafny string with one
  character per byte (codes 0 to 255). Text holding multi-byte characters
  must be passed byte by byte. For example, "2020-01-1é" is 11 bytes in
  UTF-8 and is rejected by the length test at
  ex00/src/BitcoinExchange.cpp:33. Passed as 10 Dafny characters, the
  model accepts it. The string parameters are not restricted to codes
  below 256. Under this convention the lengths tested in `IsValidDate` and
  `IsOperator`, the one-character token test of `Step`, and the digit reads
  of `Extract` count bytes.
- BitcoinExchange.Lt: `std::string` compares characters as `unsigned char`.
  The model compares Dafny characters by code, which orders byte-valued
  characters the same way.
- File handling: opening the files, reading lines with `getline`, skipping
  the header line, and the "could not open" messages. The methods take the
  lines after the header.
- The `main.cpp` files (argument-count checks and printing), and the
  canonical copy constructors and assignment operators, which only copy
  fields.
- `isValidValue` is declared in ex00/inc/BitcoinExchange.hpp but never
  defined.

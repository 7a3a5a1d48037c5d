# Verified model of the algorithm exercises and object demos

This project models in Dafny the self-contained logic of a Python test-automation
repository:

- The algorithm exercises under `DSA/`:
  - a bracket matcher;
  - two two-pointer string reversals;
  - an in-place even/odd partition;
  - a best-stock-profit scan;
  - a most-repeated-word counter;
  - three exercises whose code does not do what their comments or names say. These are a
    sliding-window maximum, a minimum window sum and a duplicate check.
- Two object-oriented demos:
  - a salary property with a validating setter, an API client whose token
    property has a deleter, and a class with "protected" and name-mangled
    fields;
  - animals that override `speak`, and a person who may hold a pet.

Each exercise is a Dafny module in its own file:

| file | module | source |
|---|---|---|
| `common.dfy` | `Outcomes`, `Seqs` | shared: the outcome types, and sums, filters, reversal and counting |
| `brackets.dfy` | `Brackets` | `DSA/findPerfectBrackets.py` |
| `reverse_preserve.dfy` | `ReversePreserve` | `DSA/reverseStringAndPreserveSpace.py` |
| `odd_to_end.dfy` | `OddToEnd` | `DSA/oddToEnd.py` |
| `stock_profit.dfy` | `StockProfit` | `DSA/bestTimeToBuyAndSellStock.py` |
| `most_repeated_word.dfy` | `MostRepeatedWord` | `DSA/findMostRepetedWord.py` |
| `sliding_window.dfy` | `SlidingWindow` | `DSA/slidingWindow.py` |
| `min_sum_subarray.dfy` | `MinSumSubArray` | `DSA/minium_Sum_SubArray.py` |
| `find_duplicate.dfy` | `FindDuplicate` | `DSA/FindDuplicate.py` |
| `encapsulation.dfy` | `Encapsulation` | `pythonBasicAndAdvance/oopsInPy/pythonextratopics/encapsulation.py` |
| `inheritance.dfy` | `Inheritance` | `pythonBasicAndAdvance/oopsInPy/inheretance.py` |

The loops of the source are Dafny methods with loop invariants. Each method is
proved against a specification predicate or function, and lemmas state the
properties of those specifications.

Python exceptions are values:
- a Python crash (`TypeError`, `IndexError` or `ValueError`) becomes the `Raise`
  case of `Result`, or the `Fail` case of `Outcome`;
- a function that falls off its end and returns `None` gives `Option.None`.

Module-level globals that a function reads are passed as explicit extra
parameters. These are the global `num` of `min_sum_subArray` and the global
`nums` of `find_duplicate`.

The in-place list of `move_odd_to_end` is a Dafny `array`.

The salary, token and pet holders are Dafny classes whose methods change their
fields.

For the three exercises that do not do what their comments or names say, the model
follows the code as written. A closed-form function `AsWritten` states what
that code returns, and a corrected method is proved against the intended
property (see "## Findings").

## Model

| member | source | states |
|---|---|---|
| Brackets.FindPerfBraces | DSA/findPerfectBrackets.py:1-12 | the result is true exactly when the bracket characters of the input, in order, form a well-nested sequence in which every closer matches the latest unclosed opener; the stack holds only openers |
| Brackets.ScanCorrect | DSA/findPerfectBrackets.py:5-12 | the stack scan with early returns succeeds exactly on inputs whose bracket subsequence is well nested |
| Brackets.ScanIgnoresOthers | DSA/findPerfectBrackets.py:6-8 | characters other than the six brackets never affect the scan: scanning the input gives the same answer as scanning its brackets alone |
| Brackets.NestedScan | DSA/findPerfectBrackets.py:5-10 | a well-nested stretch of input leaves the stack as it found it |
| Brackets.NoBracketsPass | DSA/findPerfectBrackets.py:5-12 | a string without bracket characters, the empty string included, is accepted |
| Brackets.UnmatchedCloserFails | DSA/findPerfectBrackets.py:9-10 | a closing bracket met while the stack is empty, that is, after any input whose brackets are well nested (none at all, `"()"`, `"a"`, ...), makes the string rejected, whatever follows |
| Brackets.InterleavedFails | DSA/findPerfectBrackets.py:14 | `"([)]"` is rejected: the popped top is not the partner of the closer |
| Brackets.WellNestedBalanced | DSA/findPerfectBrackets.py:12 | an accepted bracket string has as many openers as closers, so unclosed openers cause rejection |
| ReversePreserve.ReverseMovable | DSA/reverseStringAndPreserveSpace.py:6-15 | the two-pointer swap loop leaves every fixed character at its index and reverses the other characters among themselves; the result is a permutation of the input |
| ReversePreserve.RevKeepSpace | DSA/reverseStringAndPreserveSpace.py:1-15 | `rev_keep_space`: same length, spaces stay at their indices, the non-space characters come out reversed, and the characters are a permutation of the input |
| ReversePreserve.ReversePreserveSymbols | DSA/reverseStringAndPreserveSpace.py:19-34 | `reverse_preserve_symbols`: non-alphabetic characters keep their indices, alphabetic ones are reversed, and the characters are a permutation of the input |
| ReversePreserve.ReversedAroundUnique | DSA/reverseStringAndPreserveSpace.py:6-14 | the result is fully determined by the input: two results with the reversal property are equal |
| ReversePreserve.ReversedAroundTwice | DSA/reverseStringAndPreserveSpace.py:6-14 | applying the reversal twice gives the input back |
| ReversePreserve.NothingFixedIsReverse | DSA/reverseStringAndPreserveSpace.py:6-14 | on an input with no fixed characters (for `rev_keep_space`, no spaces) the result is the plain reversal |
| ReversePreserve.SameFixedSameMoved | DSA/reverseStringAndPreserveSpace.py:6-14 | two strings with the same fixed characters in the same places and the same moved characters in the same order are equal |
| ReversePreserve.RevKeepSpaceExample | DSA/reverseStringAndPreserveSpace.py:17 | `"i am good"` becomes `"d oo gmai"` |
| OddToEnd.MoveOddToEnd | DSA/oddToEnd.py:10-17 | the same array is returned, changed in place into a permutation of its old contents: first the even elements in their original order, then only odd ones |
| OddToEnd.EvensFirstSplit | DSA/oddToEnd.py:12-15 | index `k` of the result holds an even number exactly when `k` is below the number of even elements, which is the final `left` |
| OddToEnd.EvensFirstOdds | DSA/oddToEnd.py:12-15 | the part after the evens holds exactly the odd elements of the input, counted with multiplicity |
| OddToEnd.FilterSplitsMultiset | DSA/oddToEnd.py:13 | every element is either even or odd, so the input's multiset is that of its evens plus that of its odds |
| OddToEnd.AllEvenUnchanged | DSA/oddToEnd.py:12-15 | a list of even numbers only is left unchanged |
| OddToEnd.ModuleExample | DSA/oddToEnd.py:8 | for `[1, 3, 12, 0, 0]` the result starts with `12, 0, 0` followed by `1` and `3` in some order |
| StockProfit.Profit | DSA/bestTimeToBuyAndSellStock.py:7-14 | the result is non-negative and is the largest `prices[j] - prices[i]` over all days `i <= j`, attained by some pair; an empty list gives 0 |
| StockProfit.MaxProfitUnique | DSA/bestTimeToBuyAndSellStock.py:10-13 | the best gain is determined by the prices |
| StockProfit.NonIncreasingGainsNothing | DSA/bestTimeToBuyAndSellStock.py:11-13 | prices that never rise give 0 |
| StockProfit.NeverRises | DSA/bestTimeToBuyAndSellStock.py:11-13 | in a never-rising price list, a later price is never above an earlier one |
| StockProfit.ModuleExample | DSA/bestTimeToBuyAndSellStock.py:4 | `[7, 1, 5, 3, 6, 4]` gives 5 |
| MostRepeatedWord.FinMostRepeated | DSA/findMostRepetedWord.py:3-15 | the result is the word of `s.split(" ")` with the highest count; among tied words it is the first to reach that count |
| MostRepeatedWord.Split | DSA/findMostRepetedWord.py:4 | `s.split(" ")` always gives at least one piece, and no piece contains a space |
| MostRepeatedWord.JoinSplit | DSA/findMostRepetedWord.py:4 | splitting on single spaces loses nothing: joining the pieces with single spaces gives the text back |
| MostRepeatedWord.SplitJoin | DSA/findMostRepetedWord.py:4 | joining space-free words and splitting again gives the words back |
| MostRepeatedWord.SplitWord | DSA/findMostRepetedWord.py:4 | a space-free prefix is glued to the first piece of the split of the rest |
| MostRepeatedWord.MostRepeatedIsAWord | DSA/findMostRepetedWord.py:11-13 | the answer is one of the split words |
| MostRepeatedWord.MostRepeatedUnique | DSA/findMostRepetedWord.py:11-13 | the strict `>` fixes a single answer even when counts tie |
| MostRepeatedWord.EmptyTextGivesEmptyWord | DSA/findMostRepetedWord.py:4-13 | the empty text splits into one empty word, which is the answer |
| MostRepeatedWord.DoubleSpaceExample | DSA/findMostRepetedWord.py:4 | two consecutive spaces produce an empty word between them |
| MostRepeatedWord.CountStep | DSA/findMostRepetedWord.py:9 | updating `freq` with `freq.get(word, 0) + 1` keeps every entry equal to the word's count in the words seen so far |
| MostRepeatedWord.ModuleExample | DSA/findMostRepetedWord.py:1 | the module's sample text gives `"apple"` |
| SlidingWindow.SlidingWindowApproach | DSA/slidingWindow.py:6-15 | as written: a list of at most `k` numbers gives 0, a longer one raises TypeError when the integer `window_sum` is subscripted |
| SlidingWindow.ModuleCallRaises | DSA/slidingWindow.py:3 | the module's six-number list raises, although its largest window sum is 9 |
| SlidingWindow.ShortListGivesZero | DSA/slidingWindow.py:9-15 | lists of at most `k` numbers give 0; that is the window maximum exactly when the list is shorter than `k` or its one full window does not sum above 0 |
| SlidingWindow.FirstWindowSkipped | DSA/slidingWindow.py:12 | `[1, 2, 3]` gives 0 although its only window sums to 6: the guard `i > k-1` skips the first full window |
| SlidingWindow.MaxWindowSum | DSA/slidingWindow.py:1-15 | corrected: the result is the largest sum of `k` consecutive numbers (or 0 if larger or no window exists), attained by some window |
| SlidingWindow.MaxWindowUnique | DSA/slidingWindow.py:1 | the window maximum is determined by the list |
| MinSumSubArray.MinSumSubArray | DSA/minium_Sum_SubArray.py:3-14 | as written: with the global `num`, the result is `sum(num)` for at most 3 numbers; otherwise it is `sum(num)` minus `nums[1]` through `nums[len(num) - 3]`, or IndexError when `nums` is too short |
| MinSumSubArray.SelfCall | DSA/minium_Sum_SubArray.py:16 | when the argument is the global list itself and it holds at least three numbers, the result is its first number plus its last two |
| MinSumSubArray.ModuleCall | DSA/minium_Sum_SubArray.py:1 | the module's call returns 7, while the smallest three-number window sums to 6 |
| MinSumSubArray.MinWindowSum | DSA/minium_Sum_SubArray.py:3-14 | corrected: the result is the smallest sum of 3 consecutive numbers of the argument, attained by some window, or None for fewer than 3 numbers |
| MinSumSubArray.MinWindowUnique | DSA/minium_Sum_SubArray.py:3-14 | the window minimum is determined by the list |
| FindDuplicate.FindDuplicate | DSA/FindDuplicate.py:5-11 | as written: the argument is ignored; with the global list empty the result is None, otherwise True, whatever the list holds |
| FindDuplicate.DistinctReportedAsDuplicate | DSA/FindDuplicate.py:1 | `[1, 2, 3]` has no repeated value yet is reported as having one |
| FindDuplicate.ModuleCall | DSA/FindDuplicate.py:3 | the module's list does repeat 6 and is reported True |
| FindDuplicate.ContainsDuplicate | DSA/FindDuplicate.py:1-11 | corrected: true exactly when some value occurs at two different indices |
| Encapsulation.Person.constructor | pythonBasicAndAdvance/oopsInPy/pythonextratopics/encapsulation.py:8-11 | a new `person` has name `"shamanth"`, `_age` 30 and SSN `"123-45-6789"` |
| Encapsulation.PersonDemo | pythonBasicAndAdvance/oopsInPy/pythonextratopics/encapsulation.py:13-15 | the public name and protected age read back as set |
| Encapsulation.Employee.constructor | pythonBasicAndAdvance/oopsInPy/pythonextratopics/encapsulation.py:21-23 | name and salary are stored without validation |
| Encapsulation.Employee.Salary | pythonBasicAndAdvance/oopsInPy/pythonextratopics/encapsulation.py:25-27 | the `salary` getter returns the stored `_salary` unchecked, so after a successful SetSalary it returns the value set |
| Encapsulation.Employee.SetSalary | pythonBasicAndAdvance/oopsInPy/pythonextratopics/encapsulation.py:25-33 | a negative value raises ValueError and leaves the salary unchanged; any other value is stored, so the getter returns it; the name never changes |
| Encapsulation.EmployeeDemo | pythonBasicAndAdvance/oopsInPy/pythonextratopics/encapsulation.py:34-37 | the salary reads 50000, the setter succeeds, and it then reads 60000 |
| Encapsulation.EmployeeeDemo | pythonBasicAndAdvance/oopsInPy/pythonextratopics/encapsulation.py:54-56 | the `Employeee` demo: 50000, then 1 after the setter |
| Encapsulation.NegativeSalaryDemo | pythonBasicAndAdvance/oopsInPy/pythonextratopics/encapsulation.py:21-33 | the setter refuses -1 and keeps 50000, while the constructor accepts a starting salary of -1 |
| Encapsulation.ApiClient.constructor | pythonBasicAndAdvance/oopsInPy/pythonextratopics/encapsulation.py:63-64 | the token starts as `"abcd123"` |
| Encapsulation.ApiClient.Token | pythonBasicAndAdvance/oopsInPy/pythonextratopics/encapsulation.py:65-67 | the `setToken` getter returns the stored `__token`: `"abcd123"` at first, None after the deleter |
| Encapsulation.ApiClient.DeleteToken | pythonBasicAndAdvance/oopsInPy/pythonextratopics/encapsulation.py:69-72 | after the deleter the token reads None |
| Encapsulation.ApiClientDemo | pythonBasicAndAdvance/oopsInPy/pythonextratopics/encapsulation.py:74-76 | a new client's token is `"abcd123"`; after `del` it is None |
| Encapsulation.DeleteTwiceDemo | pythonBasicAndAdvance/oopsInPy/pythonextratopics/encapsulation.py:69-72 | deleting twice leaves the token None, as deleting once does |
| Inheritance.Speak | pythonBasicAndAdvance/oopsInPy/inheretance.py:3-13 | the overriding `speak` of each class: exactly an `Animal` says `"Animal speaks"`, exactly a `Dog` says `"Woof!"`, exactly a `Cat` says `"Meow!"` |
| Inheritance.SpeakDistinguishes | pythonBasicAndAdvance/oopsInPy/inheretance.py:3-13 | the three overrides of `speak` all differ, so the sound tells the class |
| Inheritance.Person.constructor | pythonBasicAndAdvance/oopsInPy/inheretance.py:16-18 | a new person has the given name and no pet |
| Inheritance.Person.SetPet | pythonBasicAndAdvance/oopsInPy/inheretance.py:20-21 | `set_pet` replaces the pet and leaves the name unchanged |
| Inheritance.Person.Introduce | pythonBasicAndAdvance/oopsInPy/inheretance.py:23-27 | `introduce` reads the person without changing it and returns `"Hi, I'm "` and the name, followed by `" and I have no pet."` when the pet is None and by `" and my pet says: "` and the pet's `speak()` otherwise |
| Inheritance.IntroductionStartsWithName | pythonBasicAndAdvance/oopsInPy/inheretance.py:23-27 | every introduction starts with `"Hi, I'm "` followed by the person's name |
| Inheritance.IntroductionEnding | pythonBasicAndAdvance/oopsInPy/inheretance.py:24-27 | after the name comes `" and I have no pet."` when there is no pet, and `" and my pet says: "` followed by the pet's `speak()` otherwise |
| Inheritance.IntroductionDeterminesPet | pythonBasicAndAdvance/oopsInPy/inheretance.py:23-27 | two introductions of the same person are equal only when the pets are equal |
| Inheritance.AliceWithDog | pythonBasicAndAdvance/oopsInPy/inheretance.py:30-33 | Alice with a dog says `"Hi, I'm Alice and my pet says: Woof!"` |
| Inheritance.AliceWithCat | pythonBasicAndAdvance/oopsInPy/inheretance.py:36-39 | Alice with a cat says `"Hi, I'm Alice and my pet says: Meow!"` |
| Inheritance.BobWithoutPet | pythonBasicAndAdvance/oopsInPy/inheretance.py:42-43 | Bob, without a pet, says `"Hi, I'm Bob and I have no pet."` |
| Inheritance.Demo | pythonBasicAndAdvance/oopsInPy/inheretance.py:29-43 | the module's three people, built through the class, introduce themselves with those three sentences |

## Left out

- Printing and the module-level calls are console output. The model states
  what the functions return, and the module-level calls appear as example
  lemmas and demo methods.
- ReversePreserve.ReversePreserveSymbols: Python's Unicode `str.isalpha` is a
  parameter `isAlpha: char -> bool`. The contract holds for every such
  predicate, but Unicode character tables are not modelled.
- StockProfit.Profit: prices are integers, and `float('inf')`, the starting
  minimum, is `None`. No floating point is modelled.
- OddToEnd.MoveOddToEnd: the order of the odd elements after the partition is
  stated only up to permutation.
- MostRepeatedWord.FinMostRepeated: the contract states the answer, not the
  final contents of `freq`. That every `freq` entry equals the word's count is
  the loop invariant, and its step is MostRepeatedWord.CountStep.
- MinSumSubArray.MinSumSubArray: `min_sum` is computed but never returned, so
  the contract says nothing about it.
- FindDuplicate.FindDuplicate: the `seen` set is never read, so the contract
  says nothing about it. It holds at most one element because the function
  returns on the first iteration.
- `Employeee` is a line-for-line copy of `Employee` and is modelled by the same
  class. Its demo is Encapsulation.EmployeeeDemo.
- Python's name mangling of `__ssn` and `__token` is not modelled. It is an
  access restriction, and it has no effect on values. Whether `_age` is
  "protected" is only a naming convention.
- The `print` inside the token deleter is console output.
- Class-based dispatch of `speak` is a datatype of the three animal classes.
  Other objects a caller might pass to `set_pet` are not modelled, because
  any object with a `speak` method would be accepted there.
- The page objects, the HTTP API helper, the pytest fixtures and test files, the
  pytest tutorial, the decorators demo, the exception demo and the constant
  demos are not part of this model. They are browser automation, network
  I/O, test-runner plumbing, or prints of fixed values, with no logic of
  their own to verify.

## Findings

| source | as written | input that shows it | evidently intended | confidence | as-written member | corrected member |
|---|---|---|---|---|---|---|
| DSA/slidingWindow.py:12-14 | `window_sum -= window_sum[i - (k-1)]` subscripts an integer, so any list longer than `k` raises TypeError. The guard `i > k-1` also skips the first full window (SlidingWindow.SlidingWindowApproach; SlidingWindow.FirstWindowSkipped shows the skipped window). | `[2, 1, 5, 1, 3, 2]` raises TypeError where 9 is intended; `[1, 2, 3]` gives 0 where 6 is intended | guard `i >= k-1` and `window_sum -= nums[i - (k-1)]`, returning the largest window sum, or 0 when every window sum is below 0 or there is no window (the initial `max_window = 0`) | high; not executed | SlidingWindow.ModuleCallRaises | SlidingWindow.MaxWindowSum |
| DSA/minium_Sum_SubArray.py:7-14 | The loop reads the global `num` rather than the parameter. It skips the first window, starts `min_sum` at 0, and returns `window_sum` instead of `min_sum` (MinSumSubArray.MinSumSubArray). | `[2, 1, 5, 1, 3, 2]` gives 7 where the smallest window sum is 6 | the smallest sum of 3 consecutive numbers of the argument | high; not executed | MinSumSubArray.ModuleCall | MinSumSubArray.MinWindowSum |
| DSA/FindDuplicate.py:7-11 | The loop variable shadows the parameter and ranges over the global `nums`. `num in nums` always holds, so the first iteration returns True (FindDuplicate.FindDuplicate). | `[1, 2, 3]` gives True although no value repeats | True exactly when some value appears twice, using `seen` | high; not executed | FindDuplicate.DistinctReportedAsDuplicate | FindDuplicate.ContainsDuplicate |

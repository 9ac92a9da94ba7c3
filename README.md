# Beginner enumeration exercises, modelled and verified in Dafny

The repository is a set of beginner Python exercises. Two of them are small
enumeration scripts, and this project models both:

- **`practice/case1.py`: three-digit numbers with distinct digits.** `func` runs
  three nested loops over the digit list `[1, 2, 3, 4]`. It skips a combination
  whenever a digit repeats and appends `a*100 + b*10 + c` for every other one.
  It then prints how many numbers it found and lists them. Under the main
  guard, a string literal keeps an alternative version of the same enumeration: it
  loops over `range(1, 5)` and keeps a counter.
- **`practice/case22.py`: the table-tennis roster puzzle.** Team a/b/c meets
  team x/y/z. a will not play x, and c will play neither x nor z. The script
  prints every roster its loops accept.

`three_digit_numbers.dfy` (module `ThreeDigitNumbers`) models `case1.py`.
`team_pairing.dfy` (module `TeamPairing`) models `case22.py`.

Each loop becomes a Dafny `for` loop in a method. What a loop has appended
after looking at a prefix of its list is given by a "pass" function:
`UnitsPass`, `TensPass` and `HundredsPass` for the digit loops, `CPass` and
`BPass` for the roster loops. Each method is proved to return the pass
function's value. The lemmas then prove what the exercises ask about: which
elements appear, how many there are, and in what order. Printed output
becomes the method's returned sequence.

For `case1.py` the lemmas hold for any digit list of decimal digits in
ascending order. They are then instantiated at `[1, 2, 3, 4]`. The result is
24 numbers, each between 123 and 432, in strictly increasing order. They are
exactly the numbers whose three digits are distinct and taken from 1 to 4.
The counter variant yields the same list, and its counter ends at 24.

For `case22.py` the model keeps the script's control flow exactly as written:

- The first loop, `for a in team_2` at lines 14-16, contains only a
  `continue`. All it does is leave `a` bound to `'z'`.
- The `b` and `c` loops at lines 18-30 are not nested inside it. They run
  once, with `a == 'z'`, and print a single roster: a-z, b-x, c-y.
- The header guard compares `__name__` with `'__main___'` (three trailing
  underscores). It is therefore false when the file is run as a script.

The model also proves two facts about this roster. It is the only solution
of the puzzle as stated in the comment at lines 5-8. And nesting the `b` loop
inside the `a` loop, which looks like what was intended, would print the same
single roster.

The model follows the code: fixed loops, no error paths, and `a` fixed to
`'z'` by the first loop, which yields exactly one roster.

## Model

| member | source | states |
|---|---|---|
| `ThreeDigitNumbers.Func` | practice/case1.py:2-15 | the list `func` prints is exactly the number list of its loops over [1, 2, 3, 4]; its length is 24 (the count on line 14); every element has three pairwise distinct digits from 1-4; every such number is present; the list is strictly increasing; every element lies in 123..432 |
| `ThreeDigitNumbers.Collect` | practice/case1.py:5-13 | the three nested loops, with their `continue` skips when `b == a` and when `c == a or c == b`, build exactly the list given by the pass functions for the given digit list |
| `ThreeDigitNumbers.CounterVariant` | practice/case1.py:25-38 | the commented-out counter variant over `range(1, 5)` yields the same numbers in the same order as `func`, and its final `count` equals the length of that list, 24 |
| `ThreeDigitNumbers.CountInRange` | practice/case1.py:29-37 | the counter variant's loops over `range(lo, hi)`, which keep a number when `ge != bai and ge != shi`, produce the enumeration of that range, and `count` always equals the number of numbers produced |
| `ThreeDigitNumbers.Range` | practice/case1.py:29 | `range(lo, hi)` as a list has `hi - lo` elements (none if `hi <= lo`), and element `i` is `lo + i` |
| `ThreeDigitNumbers.UnitsPassSound` | practice/case1.py:10-13 | when a and b are distinct digits from the list, every number the innermost loop appends has three pairwise distinct digits from the list |
| `ThreeDigitNumbers.TensPassSound` | practice/case1.py:7-13 | when a is from the list, every number the middle loop appends has three pairwise distinct digits from the list, because of the `b == a` skip |
| `ThreeDigitNumbers.HundredsPassSound` | practice/case1.py:6-13 | every number the outer loop has appended so far has three pairwise distinct digits from the list |
| `ThreeDigitNumbers.UnitsPassComplete` | practice/case1.py:10-13 | for every digit c already visited by the innermost loop with `c != a` and `c != b`, the number `a*100 + b*10 + c` has been appended |
| `ThreeDigitNumbers.TensPassComplete` | practice/case1.py:7-13 | for every b already visited by the middle loop with `b != a`, and every list digit c distinct from both, `a*100 + b*10 + c` has been appended |
| `ThreeDigitNumbers.HundredsPassComplete` | practice/case1.py:6-13 | for every a already visited by the outer loop, and every b and c from the list with all three distinct, `a*100 + b*10 + c` has been appended |
| `ThreeDigitNumbers.UnitsPassIncreasing` | practice/case1.py:10-13 | for an ascending digit list, the innermost loop appends in strictly increasing order, between `a*100 + b*10 + ds[0]` and the number for the last digit visited |
| `ThreeDigitNumbers.TensPassIncreasing` | practice/case1.py:7-13 | for an ascending digit list, the middle loop's output is strictly increasing and stays in the hundred of a, at or below tens digit `ds[j-1]` |
| `ThreeDigitNumbers.HundredsPassIncreasing` | practice/case1.py:6-13 | for an ascending digit list, the outer loop's output is strictly increasing, because the loops visit digits in ascending order with the most significant digit first, and it is bounded by the hundreds digits visited |
| `ThreeDigitNumbers.UnitsPassLength` | practice/case1.py:10-13 | for a list in which no digit repeats, the innermost loop appends one number per digit visited, minus one for a and one for b if they were visited |
| `ThreeDigitNumbers.TensPassLength` | practice/case1.py:7-13 | for a list of n digits in which none repeats, the middle loop appends n - 2 numbers for each b visited other than a |
| `ThreeDigitNumbers.HundredsPassLength` | practice/case1.py:6-13 | for a list of n digits in which none repeats, the outer loop appends (n - 1)(n - 2) numbers for each a visited |
| `ThreeDigitNumbers.EnumerateSound` | practice/case1.py:6-13 | every number in the result is `a*100 + b*10 + c` for pairwise distinct digits a, b, c from the list |
| `ThreeDigitNumbers.EnumerateComplete` | practice/case1.py:6-13 | every number `a*100 + b*10 + c` with pairwise distinct digits from the list is in the result |
| `ThreeDigitNumbers.EnumerationCorrect` | practice/case1.py:6-14 | for any ascending list of decimal digits, a number is in the result if and only if it has three pairwise distinct digits from the list; the result is strictly increasing, so it has no duplicates; it has n(n-1)(n-2) elements |
| `ThreeDigitNumbers.DigitsBounds` | practice/case1.py:4 | a number made of three pairwise distinct digits from 1-4 lies between 123 and 432 |
| `ThreeDigitNumbers.DigitsEnumeration` | practice/case1.py:4-14 | for the digits [1, 2, 3, 4], the list has 24 elements, holds exactly the distinct-digit numbers, is strictly increasing and lies in 123..432 |
| `TeamPairing.Run` | practice/case22.py:1-30 | running the script prints the banner only when `__name__` is `'__main___'`, so never when it is run as `'__main__'`; the loops print exactly one roster, a-z, b-x, c-y, and that roster solves the puzzle as stated |
| `TeamPairing.FirstLoop` | practice/case22.py:14-16 | after the first loop, `a` is the last member of team_2, `'z'`; the `continue` has no effect on later code |
| `TeamPairing.MatchLoops` | practice/case22.py:18-30 | the `b`/`c` loops print exactly the rosters given by the pass functions for the bound `a`; in every printed roster a's opponent is the bound `a`, the three opponents are pairwise distinct members of team_2, and c's opponent is neither `'x'` nor `'z'` |
| `TeamPairing.CPassSound` | practice/case22.py:22-30 | every roster the `c` loop prints for a b distinct from a has c's opponent in the team, different from a's and b's, and not excluded |
| `TeamPairing.BPassSound` | practice/case22.py:18-30 | every roster the `b` loop has printed so far passes all the filters: `b == a` skipped (line 19), `c` distinct from both (line 23), `c not in ['x', 'z']` (line 25) |
| `TeamPairing.PrintedSound` | practice/case22.py:18-30 | every printed roster passes all the filters of the loops, for any team and any value of `a` |
| `TeamPairing.CPassComplete` | practice/case22.py:22-30 | every c already visited that differs from a and b and is not excluded has had its roster printed |
| `TeamPairing.BPassComplete` | practice/case22.py:18-30 | every b already visited that differs from a, combined with any admissible c, has had its roster printed |
| `TeamPairing.PrintedComplete` | practice/case22.py:18-30 | every roster that passes all the filters is printed, so the printed rosters are exactly the admissible ones |
| `TeamPairing.ScriptOutput` | practice/case22.py:11-30 | with team_2 = x, y, z and `a` bound to `'z'`, exactly one roster is printed, a-z, b-x, c-y, and it satisfies the puzzle's constraints: a is not against x, and c is against neither x nor z |
| `TeamPairing.PuzzleSolutionUnique` | practice/case22.py:5-8 | a roster solves the puzzle as stated (distinct opponents from team_2, a not against x, c against neither x nor z) if and only if it is a-z, b-x, c-y |
| `TeamPairing.NestedReadingAgrees` | practice/case22.py:14-30 | if the `b` loop were nested inside the `a` loop, so that `a` ranged over team_2 and skipped `'x'`, the script would print the same single roster |

## Left out

- `practice/caseciyun.py`, in full. It reads a text file and decodes it as UTF-8, tokenises the text with jieba, loads a mask image with PIL and numpy, lays out and renders a word cloud, shows it with matplotlib, and saves the result. All of this is I/O or calls into third-party libraries whose behaviour is not visible here.
- Output formatting. The f-strings and `", ".join(map(str, nums))` in `practice/case1.py:14-15`, the counter variant's header at `practice/case1.py:24`, its `print(number, end=' ')` at `practice/case1.py:36` and its count line at `practice/case1.py:38`, and the f-strings in `practice/case22.py:27-30`, are not modelled. Printed numbers and rosters are returned as sequences, not as text.
- The entry wiring of `practice/case1.py:18-20`. It prints a banner and calls `func`; only `func` is modelled.
- `TeamPairing.Run`: `__name__` is taken as a parameter. Python sets it to `'__main__'` for a script, or to the module name on import.
- `TeamPairing.FirstLoop`: before the first iteration Python has no binding for `a`. The model starts `a` at an arbitrary character, which the first iteration overwrites because team_2 is not empty.
- `ThreeDigitNumbers.Func` delegates its loops to `Collect`, which takes the digit list as a parameter. Likewise `CounterVariant` delegates to `CountInRange`, which takes the bounds of `range`. The proofs are then about any list and do not unfold the literal `[1, 2, 3, 4]`.
- Python integers and strings need no width or encoding here. Every value is a digit, a number below 1000 or a one-letter name.

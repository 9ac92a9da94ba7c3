/**
 * Three-digit numbers with pairwise distinct digits drawn from 1, 2, 3, 4
 * (practice/case1.py).
 *
 * `func` runs three nested loops over the digit list, skips every
 * combination in which a digit repeats, and appends `a*100 + b*10 + c` for
 * the others. The three loops are specified here by three "pass" functions:
 * each one is the list of numbers its loop has appended after looking at a
 * prefix of the digit list. The properties the exercise asks about (how many
 * numbers, which ones, in what order) are proved for every ascending list of
 * decimal digits and then instantiated at [1, 2, 3, 4].
 */
module ThreeDigitNumbers {

  /** The digit list of `func`. */
  const Digits: seq<int> := [1, 2, 3, 4]

  /** The number whose hundreds, tens and units digits are a, b and c. */
  function Num(a: int, b: int, c: int): int {
    a * 100 + b * 10 + c
  }

  /** Every element of ds is a decimal digit. */
  ghost predicate DecimalDigits(ds: seq<int>) {
    forall i :: 0 <= i < |ds| ==> 0 <= ds[i] <= 9
  }

  /** ds is in strictly ascending order (so its elements are distinct). */
  ghost predicate Ascending(ds: seq<int>) {
    forall i, j :: 0 <= i < j < |ds| ==> ds[i] < ds[j]
  }

  /** No digit occurs twice in ds. */
  ghost predicate Distinct(ds: seq<int>) {
    forall i, j :: 0 <= i < j < |ds| ==> ds[i] != ds[j]
  }

  /** x is `a*100 + b*10 + c` for three pairwise distinct digits a, b, c taken from ds. */
  ghost predicate DistinctDigitNumber(ds: seq<int>, x: int) {
    exists a, b, c {:trigger Num(a, b, c)} :: a in ds && b in ds && c in ds && a != b && a != c && b != c && x == Num(a, b, c)
  }

  ghost predicate StrictlyIncreasing(s: seq<int>) {
    forall i, j :: 0 <= i < j < |s| ==> s[i] < s[j]
  }

  /** What the innermost loop (`for c in digits`) has appended for fixed a and b after looking at ds[..k]. */
  function UnitsPass(ds: seq<int>, a: int, b: int, k: nat): seq<int>
    requires k <= |ds|
  {
    if k == 0 then []
    else if ds[k - 1] == a || ds[k - 1] == b then UnitsPass(ds, a, b, k - 1)
    else UnitsPass(ds, a, b, k - 1) + [Num(a, b, ds[k - 1])]
  }

  /** What the middle loop (`for b in digits`) has appended for a fixed a after looking at ds[..j]. */
  function TensPass(ds: seq<int>, a: int, j: nat): seq<int>
    requires j <= |ds|
  {
    if j == 0 then []
    else if ds[j - 1] == a then TensPass(ds, a, j - 1)
    else TensPass(ds, a, j - 1) + UnitsPass(ds, a, ds[j - 1], |ds|)
  }

  /** What the outer loop (`for a in digits`) has appended after looking at ds[..i]. */
  function HundredsPass(ds: seq<int>, i: nat): seq<int>
    requires i <= |ds|
  {
    if i == 0 then [] else HundredsPass(ds, i - 1) + TensPass(ds, ds[i - 1], |ds|)
  }

  /** The whole list `nums` that `func` builds from the digit list ds. */
  function Enumerate(ds: seq<int>): seq<int> {
    HundredsPass(ds, |ds|)
  }

  // ---------------------------------------------------------------------------
  // The two programs
  // ---------------------------------------------------------------------------

  /**
   * `func`: the list of numbers it prints. The first printed line reports
   * the length of this list, the second lists its elements.
   */
  method Func() returns (nums: seq<int>)
    ensures nums == Enumerate(Digits)
    ensures |nums| == 24
    ensures forall i :: 0 <= i < |nums| ==> DistinctDigitNumber(Digits, nums[i])
    ensures forall x :: DistinctDigitNumber(Digits, x) ==> x in nums
    ensures StrictlyIncreasing(nums)
    ensures forall i :: 0 <= i < |nums| ==> 123 <= nums[i] <= 432
  {
    nums := Collect(Digits);
    DigitsEnumeration();
  }

  /**
   * The three nested loops of `func` over a digit list, with their
   * `continue` skips; every surviving combination is appended to `nums`.
   */
  method Collect(digits: seq<int>) returns (nums: seq<int>)
    ensures nums == Enumerate(digits)
  {
    nums := [];
    for i := 0 to |digits|
      invariant nums == HundredsPass(digits, i)
    {
      var a := digits[i];
      ghost var before := nums;
      for j := 0 to |digits|
        invariant nums == before + TensPass(digits, a, j)
      {
        var b := digits[j];
        if b == a {
          continue;
        }
        ghost var prefix := nums;
        for k := 0 to |digits|
          invariant nums == prefix + UnitsPass(digits, a, b, k)
        {
          var c := digits[k];
          if c == a || c == b {
            continue;
          }
          AppendAssoc(prefix, UnitsPass(digits, a, b, k), [Num(a, b, c)]);
          nums := nums + [Num(a, b, c)];
        }
        AppendAssoc(before, TensPass(digits, a, j), UnitsPass(digits, a, b, |digits|));
      }
      assert nums == before + TensPass(digits, a, |digits|);
    }
  }

  lemma AppendAssoc(s: seq<int>, t: seq<int>, u: seq<int>)
    ensures (s + t) + u == s + (t + u)
  {
  }

  /** Python's `range(lo, hi)` as a list: lo, lo + 1, ..., hi - 1. */
  function Range(lo: int, hi: int): (r: seq<int>)
    ensures |r| == if lo <= hi then hi - lo else 0
    ensures forall i :: 0 <= i < |r| ==> r[i] == lo + i
    decreases hi - lo
  {
    if lo >= hi then [] else [lo] + Range(lo + 1, hi)
  }

  /**
   * The alternative kept in a string literal under the main guard: the same
   * enumeration over `range(1, 5)`, with a counter. The printed numbers
   * become the returned list.
   */
  method CounterVariant() returns (numbers: seq<int>, count: int)
    ensures numbers == Enumerate(Digits)
    ensures count == |numbers| == 24
  {
    numbers, count := CountInRange(1, 5);
    assert Range(1, 5) == Digits;
    DigitsEnumeration();
  }

  /**
   * The loops of the counter variant over `range(lo, hi)`: a combination is
   * kept when `ge != bai and ge != shi`, printed and counted.
   */
  method CountInRange(lo: int, hi: int) returns (numbers: seq<int>, count: int)
    requires lo <= hi
    ensures numbers == Enumerate(Range(lo, hi))
    ensures count == |numbers|
  {
    ghost var r := Range(lo, hi);
    count := 0;
    numbers := [];
    for bai := lo to hi
      invariant numbers == HundredsPass(r, bai - lo)
      invariant count == |numbers|
    {
      assert r[bai - lo] == bai;
      ghost var before := numbers;
      for shi := lo to hi
        invariant numbers == before + TensPass(r, bai, shi - lo)
        invariant count == |numbers|
      {
        assert r[shi - lo] == shi;
        if shi == bai {
          continue;
        }
        ghost var prefix := numbers;
        for ge := lo to hi
          invariant numbers == prefix + UnitsPass(r, bai, shi, ge - lo)
          invariant count == |numbers|
        {
          assert r[ge - lo] == ge;
          if ge != bai && ge != shi {
            var number := bai * 100 + shi * 10 + ge;
            AppendAssoc(prefix, UnitsPass(r, bai, shi, ge - lo), [number]);
            numbers := numbers + [number];
            count := count + 1;
          }
        }
        AppendAssoc(before, TensPass(r, bai, shi - lo), UnitsPass(r, bai, shi, |r|));
      }
    }
  }

  // ---------------------------------------------------------------------------
  // Soundness: every appended number has three distinct digits from the list
  // ---------------------------------------------------------------------------

  /** Every element of s is a distinct-digit number over ds. */
  ghost predicate AllDistinctDigitNumbers(ds: seq<int>, s: seq<int>) {
    |s| == 0 || (DistinctDigitNumber(ds, s[0]) && AllDistinctDigitNumbers(ds, s[1..]))
  }

  lemma {:induction false} AllDistinctDigitNumbersConcat(ds: seq<int>, s: seq<int>, t: seq<int>)
    requires AllDistinctDigitNumbers(ds, s) && AllDistinctDigitNumbers(ds, t)
    ensures AllDistinctDigitNumbers(ds, s + t)
  {
    if |s| > 0 {
      AllDistinctDigitNumbersConcat(ds, s[1..], t);
      assert (s + t)[1..] == s[1..] + t;
    } else {
      assert s + t == t;
    }
  }

  lemma {:induction false} AllDistinctDigitNumbersIn(ds: seq<int>, s: seq<int>, x: int)
    requires AllDistinctDigitNumbers(ds, s) && x in s
    ensures DistinctDigitNumber(ds, x)
  {
    if x != s[0] {
      assert x in s[1..];
      AllDistinctDigitNumbersIn(ds, s[1..], x);
    }
  }

  lemma {:induction false} UnitsPassSound(ds: seq<int>, a: int, b: int, k: nat)
    requires k <= |ds|
    requires a in ds && b in ds && a != b
    ensures AllDistinctDigitNumbers(ds, UnitsPass(ds, a, b, k))
  {
    if k > 0 {
      var c := ds[k - 1];
      UnitsPassSound(ds, a, b, k - 1);
      if c != a && c != b {
        var single := [Num(a, b, c)];
        assert DistinctDigitNumber(ds, Num(a, b, c));
        assert AllDistinctDigitNumbers(ds, single) by {
          assert single[1..] == [];
        }
        AllDistinctDigitNumbersConcat(ds, UnitsPass(ds, a, b, k - 1), single);
      }
    }
  }

  lemma {:induction false} TensPassSound(ds: seq<int>, a: int, j: nat)
    requires j <= |ds| && a in ds
    ensures AllDistinctDigitNumbers(ds, TensPass(ds, a, j))
  {
    if j > 0 {
      TensPassSound(ds, a, j - 1);
      if ds[j - 1] != a {
        UnitsPassSound(ds, a, ds[j - 1], |ds|);
        AllDistinctDigitNumbersConcat(ds, TensPass(ds, a, j - 1), UnitsPass(ds, a, ds[j - 1], |ds|));
      }
    }
  }

  lemma {:induction false} HundredsPassSound(ds: seq<int>, i: nat)
    requires i <= |ds|
    ensures AllDistinctDigitNumbers(ds, HundredsPass(ds, i))
  {
    if i > 0 {
      var a := ds[i - 1];
      assert a in ds;
      HundredsPassSound(ds, i - 1);
      TensPassSound(ds, a, |ds|);
      AllDistinctDigitNumbersConcat(ds, HundredsPass(ds, i - 1), TensPass(ds, a, |ds|));
    }
  }

  // ---------------------------------------------------------------------------
  // Completeness: every such number is appended
  // ---------------------------------------------------------------------------

  lemma {:induction false} UnitsPassComplete(ds: seq<int>, a: int, b: int, c: int, k: nat)
    requires k <= |ds| && c in ds[..k] && c != a && c != b
    ensures Num(a, b, c) in UnitsPass(ds, a, b, k)
  {
    if k > 0 {
      assert ds[..k] == ds[..k - 1] + [ds[k - 1]];
      if c != ds[k - 1] {
        UnitsPassComplete(ds, a, b, c, k - 1);
      }
    }
  }

  lemma {:induction false} TensPassComplete(ds: seq<int>, a: int, b: int, c: int, j: nat)
    requires j <= |ds| && b in ds[..j] && c in ds && a != b && c != a && c != b
    ensures Num(a, b, c) in TensPass(ds, a, j)
  {
    if j > 0 {
      assert ds[..j] == ds[..j - 1] + [ds[j - 1]];
      if b != ds[j - 1] {
        TensPassComplete(ds, a, b, c, j - 1);
      } else {
        assert ds[..|ds|] == ds;
        UnitsPassComplete(ds, a, b, c, |ds|);
      }
    }
  }

  lemma {:induction false} HundredsPassComplete(ds: seq<int>, a: int, b: int, c: int, i: nat)
    requires i <= |ds| && a in ds[..i] && b in ds && c in ds && a != b && a != c && b != c
    ensures Num(a, b, c) in HundredsPass(ds, i)
  {
    if i > 0 {
      assert ds[..i] == ds[..i - 1] + [ds[i - 1]];
      if a != ds[i - 1] {
        HundredsPassComplete(ds, a, b, c, i - 1);
      } else {
        assert ds[..|ds|] == ds;
        TensPassComplete(ds, a, b, c, |ds|);
      }
    }
  }

  // ---------------------------------------------------------------------------
  // Order: the list is strictly increasing
  // ---------------------------------------------------------------------------

  lemma ConcatIncreasing(s: seq<int>, t: seq<int>)
    requires StrictlyIncreasing(s) && StrictlyIncreasing(t)
    requires forall x, y :: x in s && y in t ==> x < y
    ensures StrictlyIncreasing(s + t)
  {
    forall i, j | 0 <= i < j < |s + t| ensures (s + t)[i] < (s + t)[j] {
      if j >= |s| && i < |s| {
        assert (s + t)[i] in s && (s + t)[j] in t;
      }
    }
  }

  lemma {:induction false} UnitsPassIncreasing(ds: seq<int>, a: int, b: int, k: nat)
    requires DecimalDigits(ds) && Ascending(ds) && 0 < k <= |ds|
    ensures StrictlyIncreasing(UnitsPass(ds, a, b, k))
    ensures forall x :: x in UnitsPass(ds, a, b, k) ==> Num(a, b, ds[0]) <= x <= Num(a, b, ds[k - 1])
  {
    if k > 1 {
      UnitsPassIncreasing(ds, a, b, k - 1);
      ConcatIncreasing(UnitsPass(ds, a, b, k - 1), if ds[k - 1] == a || ds[k - 1] == b then [] else [Num(a, b, ds[k - 1])]);
    }
  }

  lemma {:induction false} TensPassIncreasing(ds: seq<int>, a: int, j: nat)
    requires DecimalDigits(ds) && Ascending(ds) && 0 < j <= |ds|
    ensures StrictlyIncreasing(TensPass(ds, a, j))
    ensures forall x :: x in TensPass(ds, a, j) ==> Num(a, ds[0], 0) <= x <= Num(a, ds[j - 1], 9)
  {
    var block := if ds[j - 1] == a then [] else UnitsPass(ds, a, ds[j - 1], |ds|);
    UnitsPassIncreasing(ds, a, ds[j - 1], |ds|);
    if j > 1 {
      TensPassIncreasing(ds, a, j - 1);
      ConcatIncreasing(TensPass(ds, a, j - 1), block);
    }
  }

  lemma {:induction false} HundredsPassIncreasing(ds: seq<int>, i: nat)
    requires DecimalDigits(ds) && Ascending(ds) && 0 < i <= |ds|
    ensures StrictlyIncreasing(HundredsPass(ds, i))
    ensures forall x :: x in HundredsPass(ds, i) ==> Num(ds[0], ds[0], 0) <= x <= Num(ds[i - 1], ds[|ds| - 1], 9)
  {
    TensPassIncreasing(ds, ds[i - 1], |ds|);
    if i > 1 {
      HundredsPassIncreasing(ds, i - 1);
      ConcatIncreasing(HundredsPass(ds, i - 1), TensPass(ds, ds[i - 1], |ds|));
    }
  }

  // ---------------------------------------------------------------------------
  // Count: n * (n - 1) * (n - 2) numbers for a list of n distinct digits
  // ---------------------------------------------------------------------------

  lemma {:induction false} UnitsPassLength(ds: seq<int>, a: int, b: int, k: nat)
    requires Distinct(ds) && k <= |ds|
    ensures |UnitsPass(ds, a, b, k)| == k - (if a in ds[..k] then 1 else 0) - (if b in ds[..k] && b != a then 1 else 0)
  {
    if k > 0 {
      UnitsPassLength(ds, a, b, k - 1);
      assert ds[..k] == ds[..k - 1] + [ds[k - 1]];
      assert ds[k - 1] !in ds[..k - 1];
    }
  }

  lemma {:induction false} TensPassLength(ds: seq<int>, a: int, j: nat)
    requires Distinct(ds) && j <= |ds| && a in ds
    ensures |TensPass(ds, a, j)| == (j - (if a in ds[..j] then 1 else 0)) * (|ds| - 2)
  {
    if j > 0 {
      TensPassLength(ds, a, j - 1);
      assert ds[..j] == ds[..j - 1] + [ds[j - 1]];
      assert ds[j - 1] !in ds[..j - 1];
      assert ds[..|ds|] == ds;
      if ds[j - 1] != a {
        assert |UnitsPass(ds, a, ds[j - 1], |ds|)| == |ds| - 2 by {
          UnitsPassLength(ds, a, ds[j - 1], |ds|);
        }
        MulSucc(j - 1 - (if a in ds[..j - 1] then 1 else 0), |ds| - 2);
      }
    }
  }

  lemma {:induction false} HundredsPassLength(ds: seq<int>, i: nat)
    requires Distinct(ds) && i <= |ds|
    ensures |HundredsPass(ds, i)| == i * ((|ds| - 1) * (|ds| - 2))
  {
    if i > 0 {
      var m := (|ds| - 1) * (|ds| - 2);
      assert |HundredsPass(ds, i - 1)| == (i - 1) * m by {
        HundredsPassLength(ds, i - 1);
      }
      assert |TensPass(ds, ds[i - 1], |ds|)| == m by {
        TensPassLength(ds, ds[i - 1], |ds|);
        assert ds[..|ds|] == ds;
      }
      MulSucc(i - 1, m);
    }
  }

  lemma MulSucc(k: int, m: int)
    ensures k * m + m == (k + 1) * m
  {
  }

  // ---------------------------------------------------------------------------
  // Everything together, for any list and for [1, 2, 3, 4]
  // ---------------------------------------------------------------------------

  /** Every number in the list has three distinct digits from ds. */
  lemma EnumerateSound(ds: seq<int>, x: int)
    requires x in Enumerate(ds)
    ensures DistinctDigitNumber(ds, x)
  {
    HundredsPassSound(ds, |ds|);
    AllDistinctDigitNumbersIn(ds, Enumerate(ds), x);
  }

  /** Every number with three distinct digits from ds is in the list. */
  lemma EnumerateComplete(ds: seq<int>, x: int)
    requires DistinctDigitNumber(ds, x)
    ensures x in Enumerate(ds)
  {
    var a, b, c :| a in ds && b in ds && c in ds && a != b && a != c && b != c && x == Num(a, b, c);
    assert ds[..|ds|] == ds;
    HundredsPassComplete(ds, a, b, c, |ds|);
  }

  /** For any ascending digit list, the list holds exactly its distinct-digit numbers, once each, in increasing order. */
  lemma EnumerationCorrect(ds: seq<int>)
    requires DecimalDigits(ds) && Ascending(ds)
    ensures forall x :: x in Enumerate(ds) <==> DistinctDigitNumber(ds, x)
    ensures StrictlyIncreasing(Enumerate(ds))
    ensures |Enumerate(ds)| == |ds| * (|ds| - 1) * (|ds| - 2)
  {
    forall x | x in Enumerate(ds) ensures DistinctDigitNumber(ds, x) {
      EnumerateSound(ds, x);
    }
    forall x | DistinctDigitNumber(ds, x) ensures x in Enumerate(ds) {
      EnumerateComplete(ds, x);
    }
    if |ds| > 0 {
      HundredsPassIncreasing(ds, |ds|);
    }
    assert Distinct(ds);
    HundredsPassLength(ds, |ds|);
    MulAssoc(|ds|, |ds| - 1, |ds| - 2);
  }

  lemma MulAssoc(x: int, y: int, z: int)
    ensures x * (y * z) == x * y * z
  {
  }

  /** The distinct-digit numbers over 1..4 lie between 123 and 432. */
  lemma DigitsBounds(x: int)
    requires DistinctDigitNumber(Digits, x)
    ensures 123 <= x <= 432
  {
  }

  /** The properties of the list `func` builds from [1, 2, 3, 4]. */
  lemma DigitsEnumeration()
    ensures |Enumerate(Digits)| == 24
    ensures forall x :: x in Enumerate(Digits) <==> DistinctDigitNumber(Digits, x)
    ensures StrictlyIncreasing(Enumerate(Digits))
    ensures forall x :: x in Enumerate(Digits) ==> 123 <= x <= 432
  {
    EnumerationCorrect(Digits);
    forall x | x in Enumerate(Digits) ensures 123 <= x <= 432 {
      DigitsBounds(x);
    }
  }
}

/** The older boring-data blanking of src/lib/wrapping.ts: `wrapper`, which
    blanks every interior row whose three-point relative range is below
    `eps` in every dimension, and the two relative-range functions. */
module Wrapping {
  import opened Basics
  import opened Records

  /** A quotient as IEEE division can produce it here: the numerators are
      never negative, so -Infinity does not arise. */
  datatype Ratio = Finite(value: real) | NaN | PosInf

  /** `eps > ratio`: NaN and +Infinity compare false. */
  predicate Below(eps: real, q: Ratio) {
    q.Finite? && eps > q.value
  }

  /** `num / den` for a non-negative numerator: 0/0 is NaN, a positive
      number over zero is +Infinity (the mean of a zero sum is +0). */
  function Divide(num: real, den: real): (q: Ratio)
    requires num >= 0.0
    ensures den != 0.0 <==> q.Finite?
    ensures den == 0.0 && num == 0.0 <==> q == NaN
    ensures q.Finite? ==> q.value * den == num
  {
    if den != 0.0 then Finite(num / den)
    else if num == 0.0 then NaN
    else PosInf
  }

  function Sum(s: seq<real>): real {
    if s == [] then 0.0 else Sum(s[..|s| - 1]) + s[|s| - 1]
  }

  /** `Math.min(...s)` for a non-empty list. */
  function Least(s: seq<real>): (m: real)
    requires s != []
    ensures m in s
    ensures forall i :: 0 <= i < |s| ==> m <= s[i]
  {
    if |s| == 1 then s[0]
    else
      var p := Least(s[..|s| - 1]);
      assert forall i :: 0 <= i < |s| - 1 ==> s[..|s| - 1][i] == s[i];
      if s[|s| - 1] < p then s[|s| - 1] else p
  }

  /** `Math.max(...s)` for a non-empty list. */
  function Greatest(s: seq<real>): (m: real)
    requires s != []
    ensures m in s
    ensures forall i :: 0 <= i < |s| ==> s[i] <= m
  {
    if |s| == 1 then s[0]
    else
      var p := Greatest(s[..|s| - 1]);
      assert forall i :: 0 <= i < |s| - 1 ==> s[..|s| - 1][i] == s[i];
      if s[|s| - 1] > p then s[|s| - 1] else p
  }

  /** `calculateRelativeRangeA(...numbers)`: `(max - min) / mean`. With no
      numbers the mean is 0/0 and the result NaN. */
  function RelativeRangeA(numbers: seq<real>): (q: Ratio)
    ensures numbers == [] ==> q == NaN
    ensures q.Finite? <==> Sum(numbers) != 0.0
  {
    if numbers == [] then NaN
    else Divide(Greatest(numbers) - Least(numbers), Sum(numbers) / |numbers| as real)
  }

  /** `calculateRelativeRangeB(...numbers)`: the same quotient computed in one
      pass. `lo` and `hi` are `None` while they still hold the initial
      Infinity and -Infinity. */
  method RelativeRangeB(numbers: seq<real>) returns (q: Ratio)
    ensures q == RelativeRangeA(numbers)
  {
    var sum, lo, hi := Scan(numbers);
    if numbers == [] {
      q := NaN;
    } else {
      var mean := sum / |numbers| as real;
      q := Divide(hi.value - lo.value, mean);
    }
  }

  /** The loop of `calculateRelativeRangeB`: the running sum, minimum and
      maximum. `lo` and `hi` are `None` while they still hold the initial
      Infinity and -Infinity. */
  method Scan(numbers: seq<real>) returns (sum: real, lo: Option<real>, hi: Option<real>)
    ensures sum == Sum(numbers)
    ensures numbers == [] ==> lo == None && hi == None
    ensures numbers != [] ==> lo == Some(Least(numbers)) && hi == Some(Greatest(numbers))
  {
    sum, lo, hi := 0.0, None, None;
    var i := 0;
    while i < |numbers|
      invariant 0 <= i <= |numbers|
      invariant sum == Sum(numbers[..i])
      invariant i == 0 ==> lo == None && hi == None
      invariant i > 0 ==> lo == Some(Least(numbers[..i])) && hi == Some(Greatest(numbers[..i]))
    {
      var num := numbers[i];
      ScanStep(numbers, i);
      if lo == None || num < lo.value {
        lo := Some(num);
      }
      if hi == None || num > hi.value {
        hi := Some(num);
      }
      sum := sum + num;
      i := i + 1;
    }
    assert numbers[..i] == numbers;
  }

  /** One more number: the running sum, minimum and maximum. */
  lemma ScanStep(numbers: seq<real>, i: nat)
    requires i < |numbers|
    ensures Sum(numbers[..i + 1]) == Sum(numbers[..i]) + numbers[i]
    ensures i == 0 ==> Least(numbers[..i + 1]) == numbers[i] == Greatest(numbers[..i + 1])
    ensures i > 0 ==> Least(numbers[..i + 1]) == if numbers[i] < Least(numbers[..i]) then numbers[i] else Least(numbers[..i])
    ensures i > 0 ==> Greatest(numbers[..i + 1]) == if numbers[i] > Greatest(numbers[..i]) then numbers[i] else Greatest(numbers[..i])
  {
    assert numbers[..i + 1][..i] == numbers[..i];
  }

  /** The spread `max - min` is never negative. */
  lemma SpreadNonNegative(numbers: seq<real>)
    requires numbers != []
    ensures Greatest(numbers) - Least(numbers) >= 0.0
  {
    assert Least(numbers) <= numbers[0] <= Greatest(numbers);
  }

  /** A constant list with a non-zero value has relative range 0. */
  lemma ConstantHasZeroRange(numbers: seq<real>, c: real)
    requires numbers != [] && c != 0.0
    requires forall i :: 0 <= i < |numbers| ==> numbers[i] == c
    ensures RelativeRangeA(numbers) == Finite(0.0)
  {
    ConstantExtremes(numbers, c);
    MeanOfConstant(numbers, c);
  }

  lemma ConstantExtremes(numbers: seq<real>, c: real)
    requires numbers != []
    requires forall i :: 0 <= i < |numbers| ==> numbers[i] == c
    ensures Greatest(numbers) == c && Least(numbers) == c
  {
    assert Greatest(numbers) in numbers && Least(numbers) in numbers;
  }

  lemma MeanOfConstant(numbers: seq<real>, c: real)
    requires numbers != []
    requires forall i :: 0 <= i < |numbers| ==> numbers[i] == c
    ensures Sum(numbers) / |numbers| as real == c
  {
    SumOfConstant(numbers, c);
  }

  lemma {:induction false} SumOfConstant(numbers: seq<real>, c: real)
    requires forall i :: 0 <= i < |numbers| ==> numbers[i] == c
    ensures Sum(numbers) == |numbers| as real * c
  {
    if numbers != [] {
      SumOfConstant(numbers[..|numbers| - 1], c);
    }
  }

  /** A zero sum makes the quotient NaN or +Infinity, so no `eps` is above
      it. */
  lemma ZeroSumNeverBelow(numbers: seq<real>, eps: real)
    requires Sum(numbers) == 0.0
    ensures !Below(eps, RelativeRangeA(numbers))
  {
    if numbers != [] {
      SpreadNonNegative(numbers);
    }
  }

  /** The relative range of one dimension over three consecutive rows; an
      undefined value makes the sum, and so the quotient, NaN. */
  function Spread3(prev: Row, cur: Row, next: Row, d: string): (q: Ratio)
    ensures (Get(prev, d).None? || Get(cur, d).None? || Get(next, d).None?) ==> q == NaN
  {
    match (Get(prev, d), Get(cur, d), Get(next, d))
    case (Some(a), Some(b), Some(c)) => RelativeRangeA([a, b, c])
    case _ => NaN
  }

  /** Interior row `i` is boring: in every listed dimension its three-point
      relative range is strictly below `eps`. */
  predicate Boring(rows: seq<Row>, dims: seq<string>, eps: real, i: nat)
    requires 0 < i < |rows| - 1
  {
    forall d :: d in dims ==> Below(eps, Spread3(rows[i - 1], rows[i], rows[i + 1], d))
  }

  /** The inner loop for interior row `i`: whether no listed dimension stops
      the blanking. */
  method ShouldBlank(rows: seq<Row>, dims: seq<string>, eps: real, i: nat) returns (blank: bool)
    requires 0 < i < |rows| - 1
    ensures blank <==> Boring(rows, dims, eps, i)
  {
    var prev, cur, next := rows[i - 1], rows[i], rows[i + 1];
    blank := true;
    var j := 0;
    while j < |dims|
      invariant 0 <= j <= |dims|
      invariant forall k :: 0 <= k < j ==> Below(eps, Spread3(prev, cur, next, dims[k]))
    {
      var d := dims[j];
      var rr := RelativeRangeOf(Get(prev, d), Get(cur, d), Get(next, d));
      assert rr == Spread3(prev, cur, next, d);
      if Below(eps, rr) {
      } else {
        blank := false;
        break;
      }
      j := j + 1;
    }
    if !blank {
      assert dims[j] in dims;
    } else {
      forall d | d in dims ensures Below(eps, Spread3(prev, cur, next, d)) {
        var k :| 0 <= k < |dims| && dims[k] == d;
      }
    }
  }

  /** `calculateRelativeRangeB(prevValue, currentValue, nextValue)` on cells
      that may be undefined. */
  method RelativeRangeOf(a: Value, b: Value, c: Value) returns (q: Ratio)
    ensures a.Some? && b.Some? && c.Some? ==> q == RelativeRangeA([a.value, b.value, c.value])
    ensures a.None? || b.None? || c.None? ==> q == NaN
  {
    if a.Some? && b.Some? && c.Some? {
      q := RelativeRangeB([a.value, b.value, c.value]);
    } else {
      q := NaN;
    }
  }

  /** What `wrapper` writes for row `i`. */
  function Wrapped(rows: seq<Row>, dims: seq<string>, eps: real, i: nat): Row
    requires i < |rows| && TimestampKey !in dims
  {
    if 0 < i < |rows| - 1 && Boring(rows, dims, eps, i) then Blank(rows[i], dims) else rows[i]
  }

  /** `wrapper(rawData, dimensions, { eps }).filteredData` */
  method Wrapper(rows: seq<Row>, dims: seq<string>, eps: real) returns (filtered: seq<Row>)
    requires TimestampKey !in dims
    ensures |filtered| == |rows|
    ensures |rows| > 0 ==> filtered[0] == rows[0] && filtered[|rows| - 1] == rows[|rows| - 1]
    ensures forall i :: 0 < i < |rows| - 1 ==>
      filtered[i] == if Boring(rows, dims, eps, i) then Blank(rows[i], dims) else rows[i]
  {
    filtered := [];
    var i := 0;
    while i < |rows|
      invariant 0 <= i <= |rows| && |filtered| == i
      invariant forall k :: 0 <= k < i ==> filtered[k] == Wrapped(rows, dims, eps, k)
    {
      var row := rows[i];
      if 0 < i < |rows| - 1 {
        var blank := ShouldBlank(rows, dims, eps, i);
        if blank {
          row := Blank(rows[i], dims);
        }
      }
      assert row == Wrapped(rows, dims, eps, i);
      filtered := filtered + [row];
      i := i + 1;
    }
    if |rows| > 0 {
      assert filtered[0] == Wrapped(rows, dims, eps, 0);
      assert filtered[|rows| - 1] == Wrapped(rows, dims, eps, |rows| - 1);
    }
  }

  /** With no dimensions listed, every interior row is boring. */
  lemma NoDimensionsAllBoring(rows: seq<Row>, eps: real, i: nat)
    requires 0 < i < |rows| - 1
    ensures Boring(rows, [], eps, i)
  {
  }

  /** A row whose three-point window sums to zero in some listed dimension is
      never blanked. */
  lemma ZeroSumKeepsRow(rows: seq<Row>, dims: seq<string>, eps: real, i: nat, d: string)
    requires 0 < i < |rows| - 1 && d in dims
    requires Get(rows[i - 1], d).Some? && Get(rows[i], d).Some? && Get(rows[i + 1], d).Some?
    requires Get(rows[i - 1], d).value + Get(rows[i], d).value + Get(rows[i + 1], d).value == 0.0
    ensures !Boring(rows, dims, eps, i)
  {
    var a, b, c := Get(rows[i - 1], d).value, Get(rows[i], d).value, Get(rows[i + 1], d).value;
    assert Sum([a]) == a by { assert [a][..0] == []; }
    assert Sum([a, b]) == a + b by { assert [a, b][..1] == [a]; }
    assert Sum([a, b, c]) == a + b + c by { assert [a, b, c][..2] == [a, b]; }
    ZeroSumNeverBelow([a, b, c], eps);
  }
}

/**
 * The iterative Fibonacci table of workshop07/fib.py.
 *
 * `fib(n)` allocates a table of `n + 2` cells, all NaN, seeds the first two
 * cells with 1, fills every later cell with the sum of the two before it and
 * returns the last cell. The floating-point cells are modelled as unbounded
 * integers, and NaN as the `Unset` cell.
 */
module Fib {

  /** One cell of the table: still NaN, or holding a number. */
  datatype Cell = Unset | Num(value: int)

  /** What makes the script raise instead of returning a number. */
  datatype FibError =
    | NegativeDimensions    // the table would have a negative size
    | IndexError(index: int) // a write to a cell past the end of the table

  datatype FibResult = Ok(value: int) | Err(error: FibError)

  /** Cell `i` of a filled table: 1, 1, 2, 3, 5, 8, ... */
  function Table(i: nat): nat
  {
    if i < 2 then 1 else Table(i - 1) + Table(i - 2)
  }

  /** The standard Fibonacci numbers 0, 1, 1, 2, 3, 5, ... */
  function Fibonacci(i: nat): nat
  {
    if i == 0 then 0 else if i == 1 then 1 else Fibonacci(i - 1) + Fibonacci(i - 2)
  }

  /**
   * `fib(n)`. On success the result is the last cell, index `n + 1`, of a
   * table of `n + 2` cells; `cells` is the table as it stands when the
   * function returns or raises.
   */
  method Fib(n: int) returns (r: FibResult, ghost cells: seq<Cell>)
    ensures n >= 0 ==> r == Ok(Table(n + 1))
    ensures n == -1 ==> r == Err(IndexError(1))
    ensures n == -2 ==> r == Err(IndexError(0))
    ensures n <= -3 ==> r == Err(NegativeDimensions)
    ensures n >= 0 ==> |cells| == n + 2 && r.Ok? && cells[n + 1] == Num(r.value)
    ensures n >= 0 ==> forall k :: 0 <= k < |cells| ==> cells[k] == Num(Table(k))
    ensures n == -1 ==> cells == [Num(1)]
    ensures n < -1 ==> cells == []
  {
    var size := n + 2;
    if size < 0 {
      return Err(NegativeDimensions), [];
    }
    var f := new Cell[size](_ => Unset);
    // f[0] = f[1] = 1 assigns its targets from left to right
    if size == 0 {
      return Err(IndexError(0)), f[..];
    }
    f[0] := Num(1);
    if size == 1 {
      return Err(IndexError(1)), f[..];
    }
    f[1] := Num(1);
    for i := 2 to size
      invariant forall k :: 0 <= k < i ==> f[k] == Num(Table(k))
      invariant forall k :: i <= k < size ==> f[k] == Unset
    {
      f[i] := Num(f[i - 1].value + f[i - 2].value);
    }
    r, cells := Ok(f[size - 1].value), f[..];
  }

  /** The table is the Fibonacci sequence shifted by one: cell `i` is F(i + 1). */
  lemma {:induction false} TableIsShiftedFibonacci(i: nat)
    ensures Table(i) == Fibonacci(i + 1)
  {
    if i >= 2 {
      TableIsShiftedFibonacci(i - 1);
      TableIsShiftedFibonacci(i - 2);
    }
  }

  /** So `fib(n)`, cell `n + 1`, is F(n + 2). */
  lemma FibIsFibonacciPlusTwo(n: nat)
    ensures Table(n + 1) == Fibonacci(n + 2)
  {
    TableIsShiftedFibonacci(n + 1);
  }

  /**
   * `fib(0)` is 1, `fib(1)` is 2 and `fib(10)` is 144, the twelfth Fibonacci
   * number, not 55, the tenth.
   */
  lemma FibValues()
    ensures Table(0 + 1) == 1 && Table(1 + 1) == 2
    ensures Table(10 + 1) == 144 && Fibonacci(10) == 55
  {
  }

  /**
   * `fib(n)` returning `f[n - 1]` instead of `f[-1]`: the n'th Fibonacci
   * number the docstring promises, counting 1, 1, 2, 3, ... from n = 1. For
   * n = 0, Python's `f[-1]` is the last cell, `f[1]`, which is 1.
   */
  function FibIntended(n: nat): (r: nat)
    ensures n >= 1 ==> r == Fibonacci(n)
    ensures n == 0 ==> r == 1
  {
    if n == 0 then Table(1)
    else
      TableIsShiftedFibonacci(n - 1);
      Table(n - 1)
  }

  /** The corrected function meets the comment's expectation, fib(10) == 55. */
  lemma FibIntendedValues()
    ensures FibIntended(0) == 1 && FibIntended(1) == 1 && FibIntended(10) == 55
  {
  }

  /** Every cell is positive. */
  lemma {:induction false} TablePositive(i: nat)
    ensures Table(i) >= 1
  {
    if i >= 2 {
      TablePositive(i - 1);
    }
  }

  /** The cells never decrease. */
  lemma {:induction false} TableMonotone(i: nat, j: nat)
    requires i <= j
    ensures 1 <= Table(i) <= Table(j)
  {
    if i == j {
      TablePositive(i);
    } else {
      TableMonotone(i, j - 1);
    }
  }
}

/** MathKit: the sign function Normalize and the recursive ordered-dithering
    (Bayer) matrix. */
module MathKit {
  import opened Wrappers
  import opened Powers

  /** Normalize(value): the sign of `value` as 1, -1 or 0. */
  function Normalize(value: real): (r: real)
    ensures r == 1.0 || r == -1.0 || r == 0.0
    ensures r * (if value < 0.0 then -value else value) == value
    ensures value == 0.0 ==> r == 0.0
  {
    if value > 0.0 then 1.0
    else if value < 0.0 then -1.0
    else 0.0
  }

  /** Mathf.IsPowerOfTwo, an engine function, by its meaning on positive values
      (sizes up to 1 are rejected before it matters). */
  predicate IsPowerOfTwo(n: int)
    decreases if n < 0 then 0 else n
  {
    n == 1 || (n > 1 && n % 2 == 0 && IsPowerOfTwo(n / 2))
  }

  /** The exponent of a power of two. */
  function Log2(n: int): (k: nat)
    requires IsPowerOfTwo(n)
    ensures Pow2(k) == n
    decreases if n < 0 then 0 else n
  {
    if n == 1 then 0 else 1 + Log2(n / 2)
  }

  /** Entry (i, j) of the Bayer matrix of size 2^k. One doubling step keeps the
      smaller matrix's value v, multiplied by 4, in the top-left quadrant, and
      puts 4v+1, 4v+2, 4v+3 at the same place in the bottom-right, bottom-left
      and top-right quadrants. */
  function Dither(k: nat, i: int, j: int): int
    requires 0 <= i < Pow2(k) && 0 <= j < Pow2(k)
    decreases k
  {
    if k == 0 then 0
    else
      var h := Pow2(k - 1);
      var v := Dither(k - 1, if i < h then i else i - h, if j < h then j else j - h);
      4 * v + Quadrant(i >= h, j >= h)
  }

  /** The offset a doubling step adds in the quadrant (lower half?, right half?). */
  function Quadrant(lower: bool, right: bool): int {
    if !lower && !right then 0
    else if lower && right then 1
    else if lower then 2
    else 3
  }

  /** Every entry of the matrix of size n = 2^k lies in [0, n*n). */
  lemma {:induction false} DitherInRange(k: nat, i: int, j: int)
    requires 0 <= i < Pow2(k) && 0 <= j < Pow2(k)
    ensures 0 <= Dither(k, i, j) < Pow2(k) * Pow2(k)
  {
    if k > 0 {
      var h := Pow2(k - 1);
      var a, b := if i < h then i else i - h, if j < h then j else j - h;
      DitherInRange(k - 1, a, b);
      QuarterSquare(k);
      var v := Dither(k - 1, a, b);
      assert Dither(k, i, j) == 4 * v + Quadrant(i >= h, j >= h);
    }
  }

  /** The matrix of size 2^k has four times the cells of the one of size 2^(k-1). */
  lemma QuarterSquare(k: nat)
    requires k > 0
    ensures Pow2(k) * Pow2(k) == 4 * (Pow2(k - 1) * Pow2(k - 1))
  {
    var h := Pow2(k - 1);
    assert Pow2(k) == 2 * h;
    assert (2 * h) * (2 * h) == 4 * (h * h);
  }

  /** No value occurs twice in the matrix. */
  lemma {:induction false} DitherInjective(k: nat, i: int, j: int, i': int, j': int)
    requires 0 <= i < Pow2(k) && 0 <= j < Pow2(k)
    requires 0 <= i' < Pow2(k) && 0 <= j' < Pow2(k)
    requires Dither(k, i, j) == Dither(k, i', j')
    ensures i == i' && j == j'
  {
    if k > 0 {
      var h := Pow2(k - 1);
      var a, b := if i < h then i else i - h, if j < h then j else j - h;
      var a', b' := if i' < h then i' else i' - h, if j' < h then j' else j' - h;
      assert Quadrant(i >= h, j >= h) == Quadrant(i' >= h, j' >= h);
      DitherInjective(k - 1, a, b, a', b');
    }
  }

  /** The cell holding value v, built by undoing the doublings: its proof shows
      that every value of [0, n*n) occurs in the matrix of size n = 2^k. */
  function CellOf(k: nat, v: int): (cell: (int, int))
    requires 0 <= v < Pow2(k) * Pow2(k)
    ensures 0 <= cell.0 < Pow2(k) && 0 <= cell.1 < Pow2(k)
    ensures Dither(k, cell.0, cell.1) == v
    decreases k
  {
    if k == 0 then (0, 0)
    else
      var h := Pow2(k - 1);
      assert Pow2(k) * Pow2(k) == 4 * (h * h);
      var low := CellOf(k - 1, v / 4);
      var q := v % 4;
      (low.0 + (if q == 1 || q == 2 then h else 0), low.1 + (if q == 1 || q == 3 then h else 0))
  }

  /** The top-left entry of every matrix is 0. */
  lemma {:induction false} DitherOrigin(k: nat)
    ensures Dither(k, 0, 0) == 0
  {
    if k > 0 {
      DitherOrigin(k - 1);
    }
  }

  /** CreateOrderedDitheringMatrix(size): null unless size is a power of two
      above 1; otherwise the size-by-size matrix reached by doubling from the
      1-by-1 matrix {{0}}. */
  method CreateOrderedDitheringMatrix(size: int) returns (r: Option<array2<int>>)
    ensures r.None? <==> size <= 1 || !IsPowerOfTwo(size)
    ensures r.Some? ==> fresh(r.value) && r.value.Length0 == size && r.value.Length1 == size
    ensures r.Some? ==> forall i, j :: 0 <= i < size && 0 <= j < size ==> r.value[i, j] == Dither(Log2(size), i, j)
  {
    if size <= 1 || !IsPowerOfTwo(size) {
      return None;
    }
    ghost var last := Log2(size);
    var inputSize := 1;
    ghost var k: nat := 0;
    var input := new int[1, 1];
    input[0, 0] := 0;
    while true
      invariant inputSize == Pow2(k) && k < last
      invariant input.Length0 == inputSize && input.Length1 == inputSize
      invariant forall i, j :: 0 <= i < inputSize && 0 <= j < inputSize ==> input[i, j] == Dither(k, i, j)
      decreases last - k
    {
      var outputSize := inputSize * 2;
      var output := Double(input, inputSize, k);
      if outputSize >= size {
        if k + 1 < last {
          Pow2StrictlyIncreasing(k + 1, last);
        }
        return Some(output);
      }
      inputSize := outputSize;
      input := output;
      k := k + 1;
    }
  }

  /** One doubling step: the matrix of size 2n = 2^(k+1) from that of size n. */
  method Double(input: array2<int>, n: int, ghost k: nat) returns (output: array2<int>)
    requires n == Pow2(k) && input.Length0 == n && input.Length1 == n
    requires forall i, j :: 0 <= i < n && 0 <= j < n ==> input[i, j] == Dither(k, i, j)
    ensures fresh(output) && output.Length0 == 2 * n && output.Length1 == 2 * n
    ensures forall i, j :: 0 <= i < 2 * n && 0 <= j < 2 * n ==> output[i, j] == Dither(k + 1, i, j)
  {
    output := new int[2 * n, 2 * n];
    for i := 0 to n
      invariant forall a, b :: 0 <= a < i && 0 <= b < n ==> output[a, b] == 4 * input[a, b]
      invariant forall a, b :: 0 <= a < i && 0 <= b < n ==> output[a + n, b + n] == 4 * input[a, b] + 1
      invariant forall a, b :: 0 <= a < i && 0 <= b < n ==> output[a + n, b] == 4 * input[a, b] + 2
      invariant forall a, b :: 0 <= a < i && 0 <= b < n ==> output[a, b + n] == 4 * input[a, b] + 3
    {
      FillRow(input, output, n, i);
    }
    DoubledIsNext(input, output, n, k);
  }

  /** The inner loop of one doubling step: row i of the smaller matrix fills
      rows i and i+n of the larger one, and no other row changes. */
  method FillRow(input: array2<int>, output: array2<int>, n: int, i: int)
    requires input.Length0 == n && input.Length1 == n
    requires output.Length0 == 2 * n && output.Length1 == 2 * n
    requires 0 <= i < n && output != input
    modifies output
    ensures forall b :: 0 <= b < n ==> output[i, b] == 4 * input[i, b]
    ensures forall b :: 0 <= b < n ==> output[i + n, b + n] == 4 * input[i, b] + 1
    ensures forall b :: 0 <= b < n ==> output[i + n, b] == 4 * input[i, b] + 2
    ensures forall b :: 0 <= b < n ==> output[i, b + n] == 4 * input[i, b] + 3
    ensures forall a, b :: 0 <= a < 2 * n && a != i && a != i + n && 0 <= b < 2 * n ==> output[a, b] == old(output[a, b])
  {
    for j := 0 to n
      invariant forall b :: 0 <= b < j ==> output[i, b] == 4 * input[i, b]
      invariant forall b :: 0 <= b < j ==> output[i + n, b + n] == 4 * input[i, b] + 1
      invariant forall b :: 0 <= b < j ==> output[i + n, b] == 4 * input[i, b] + 2
      invariant forall b :: 0 <= b < j ==> output[i, b + n] == 4 * input[i, b] + 3
      invariant forall a, b :: 0 <= a < 2 * n && a != i && a != i + n && 0 <= b < 2 * n ==> output[a, b] == old(output[a, b])
    {
      FillCells(input, output, n, i, j);
    }
  }

  /** The body of the inner loop: cell (i, j) of the smaller matrix fills its
      four images in the larger one, and no other cell changes. */
  method FillCells(input: array2<int>, output: array2<int>, n: int, i: int, j: int)
    requires input.Length0 == n && input.Length1 == n
    requires output.Length0 == 2 * n && output.Length1 == 2 * n
    requires 0 <= i < n && 0 <= j < n && output != input
    modifies output
    ensures output[i, j] == 4 * input[i, j] && output[i + n, j + n] == 4 * input[i, j] + 1
    ensures output[i + n, j] == 4 * input[i, j] + 2 && output[i, j + n] == 4 * input[i, j] + 3
    ensures forall a, b :: 0 <= a < 2 * n && 0 <= b < 2 * n && ((a != i && a != i + n) || (b != j && b != j + n)) ==>
      output[a, b] == old(output[a, b])
  {
    var value := input[i, j] * 4;
    output[i, j] := value;
    output[i + n, j + n] := value + 1;
    output[i + n, j] := value + 2;
    output[i, j + n] := value + 3;
  }

  /** A matrix filled by the doubling rule from the matrix of size 2^k is the
      matrix of size 2^(k+1). */
  lemma DoubledIsNext(input: array2<int>, output: array2<int>, n: int, k: nat)
    requires n == Pow2(k) && input.Length0 == n && input.Length1 == n
    requires output.Length0 == 2 * n && output.Length1 == 2 * n
    requires forall i, j :: 0 <= i < n && 0 <= j < n ==> input[i, j] == Dither(k, i, j)
    requires forall a, b :: 0 <= a < n && 0 <= b < n ==> output[a, b] == 4 * input[a, b]
    requires forall a, b :: 0 <= a < n && 0 <= b < n ==> output[a + n, b + n] == 4 * input[a, b] + 1
    requires forall a, b :: 0 <= a < n && 0 <= b < n ==> output[a + n, b] == 4 * input[a, b] + 2
    requires forall a, b :: 0 <= a < n && 0 <= b < n ==> output[a, b + n] == 4 * input[a, b] + 3
    ensures forall i, j :: 0 <= i < 2 * n && 0 <= j < 2 * n ==> output[i, j] == Dither(k + 1, i, j)
  {
    forall a, b | 0 <= a < 2 * n && 0 <= b < 2 * n
      ensures output[a, b] == Dither(k + 1, a, b)
    {
      var a0, b0 := if a < n then a else a - n, if b < n then b else b - n;
      assert output[a, b] == 4 * input[a0, b0] + Quadrant(a >= n, b >= n);
    }
  }
}

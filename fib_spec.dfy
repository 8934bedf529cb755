/**
 The Fibonacci sequence and the shape of a memo table that holds a prefix of it.
 The memo table maps an index to the value cached for it.
 */
module FibSpec {

  /** Fibonacci(0) = 0, Fibonacci(1) = 1, Fibonacci(n) = Fibonacci(n - 1) + Fibonacci(n - 2). */
  function Fibonacci(n: nat): (f: nat)
  {
    if n <= 1 then n else Fibonacci(n - 1) + Fibonacci(n - 2)
  }

  /** The largest value of a 32-bit C++ `int`, the value type of the memo table. */
  const INT_MAX: int := 0x7fff_ffff

  /** Every cached entry is the Fibonacci number of its (non-negative) key. */
  ghost predicate FibCorrect(m: map<int, int>)
  {
    forall i :: i in m ==> 0 <= i && m[i] == Fibonacci(i)
  }

  /** m holds exactly Fibonacci(0), ..., Fibonacci(top) and nothing else. */
  ghost predicate FibPrefix(m: map<int, int>, top: int)
  {
    (forall i :: i in m <==> 0 <= i <= top) && FibCorrect(m)
  }

  /** A table whose keys are exactly 0..top has top + 1 entries. */
  lemma {:induction false} RangeKeysSize(m: map<int, int>, top: int)
    requires forall i :: i in m <==> 0 <= i <= top
    requires top >= -1
    ensures |m| == top + 1
  {
    if top == -1 {
      assert forall i :: i !in m.Keys;
      assert m.Keys == {};
    } else {
      assert top in m;
      var rest := m - {top};
      assert |rest| == |m| - 1;
      RangeKeysSize(rest, top - 1);
    }
  }

  /** A prefix 0..top has top + 1 entries: the size of the table tells its last index. */
  lemma FibPrefixSize(m: map<int, int>, top: int)
    requires FibPrefix(m, top)
    requires top >= -1
    ensures |m| == top + 1
  {
    RangeKeysSize(m, top);
  }

  /** Fibonacci never decreases. */
  lemma {:induction false} FibonacciMonotone(i: nat, j: nat)
    requires i <= j
    ensures Fibonacci(i) <= Fibonacci(j)
  {
    if i < j {
      FibonacciMonotone(i, j - 1);
    }
  }

  /** The values the sample driver prints, and the last index whose value fits in an `int`. */
  lemma FibonacciTable()
    ensures Fibonacci(4) == 3 && Fibonacci(8) == 21 && Fibonacci(21) == 10946
    ensures Fibonacci(46) == 1836311903 && Fibonacci(47) == 2971215073
  {
    assert Fibonacci(2) == 1;
    assert Fibonacci(3) == 2;
    assert Fibonacci(4) == 3;
    assert Fibonacci(5) == 5;
    assert Fibonacci(6) == 8;
    assert Fibonacci(7) == 13;
    assert Fibonacci(8) == 21;
    assert Fibonacci(9) == 34;
    assert Fibonacci(10) == 55;
    assert Fibonacci(11) == 89;
    assert Fibonacci(12) == 144;
    assert Fibonacci(13) == 233;
    assert Fibonacci(14) == 377;
    assert Fibonacci(15) == 610;
    assert Fibonacci(16) == 987;
    assert Fibonacci(17) == 1597;
    assert Fibonacci(18) == 2584;
    assert Fibonacci(19) == 4181;
    assert Fibonacci(20) == 6765;
    assert Fibonacci(21) == 10946;
    assert Fibonacci(22) == 17711;
    assert Fibonacci(23) == 28657;
    assert Fibonacci(24) == 46368;
    assert Fibonacci(25) == 75025;
    assert Fibonacci(26) == 121393;
    assert Fibonacci(27) == 196418;
    assert Fibonacci(28) == 317811;
    assert Fibonacci(29) == 514229;
    assert Fibonacci(30) == 832040;
    assert Fibonacci(31) == 1346269;
    assert Fibonacci(32) == 2178309;
    assert Fibonacci(33) == 3524578;
    assert Fibonacci(34) == 5702887;
    assert Fibonacci(35) == 9227465;
    assert Fibonacci(36) == 14930352;
    assert Fibonacci(37) == 24157817;
    assert Fibonacci(38) == 39088169;
    assert Fibonacci(39) == 63245986;
    assert Fibonacci(40) == 102334155;
    assert Fibonacci(41) == 165580141;
    assert Fibonacci(42) == 267914296;
    assert Fibonacci(43) == 433494437;
    assert Fibonacci(44) == 701408733;
    assert Fibonacci(45) == 1134903170;
    assert Fibonacci(46) == 1836311903;
  }

  /**
   Index 46 is the last one whose Fibonacci number fits in an `int`: a table that holds a
   prefix up to 46 never overflowed, and computing index 47 would.
   */
  lemma PrefixFitsInt(m: map<int, int>, top: int)
    requires FibPrefix(m, top)
    requires top <= 46
    ensures forall i :: i in m ==> 0 <= m[i] <= INT_MAX
    ensures Fibonacci(47) > INT_MAX
  {
    FibonacciTable();
    forall i | i in m
      ensures m[i] <= INT_MAX
    {
      FibonacciMonotone(i, 46);
    }
  }
}

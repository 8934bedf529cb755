/**
 The sample driver's sequence of requests on one shared memo table, as a client of Fib:
 what the specifications of Fib alone say about it.
 */
module SampleDriver {
  import opened FibSpec
  import opened Memoization

  /**
   Fibonacci(8) on an empty table computes indices 2..8; Fibonacci(21) then computes only
   9..21; Fibonacci(4) is then answered from the table without computing anything.
   */
  method SampleRun(cpuPool: int)
    returns (r8: Result<int>, c8: int, r21: Result<int>, c21: int, r4: Result<int>, c4: int, memo: map<int, int>)
    requires 1 <= cpuPool < 7
    ensures r8 == Success(21) && c8 == 7
    ensures r21 == Success(10946) && c21 == 13
    ensures r4 == Success(3) && c4 == 0
    ensures FibPrefix(memo, 21)
  {
    FibonacciTable();
    memo := map[];
    r8, memo, c8 := Fib(8, cpuPool, memo);
    FibPrefixSize(memo, 8);
    r21, memo, c21 := Fib(21, cpuPool, memo);
    r4, memo, c4 := Fib(4, cpuPool, memo);
  }
}

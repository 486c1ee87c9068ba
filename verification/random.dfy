/**
 * The Fisher-Yates shuffle shared by the Sudoku generator (`shuffle`) and the
 * Connections board (`shuffleWords`). `Math.random()` is replaced by an oracle:
 * draw number `k` is `rng(k)`, and the swap partner for slot `i` is
 * `rng(k) % (i + 1)`, which is what `Math.floor(Math.random() * (i + 1))` ranges over.
 */
module Random {

  /**
   * Copies `a`, then for `i` from `|a| - 1` down to 1 swaps slot `i` with a
   * slot `j <= i` chosen by the next draw. Returns the shuffled copy and the
   * index of the first unused draw; `a` itself is a value and is left as it was.
   */
  method Shuffle<T>(a: seq<T>, rng: nat -> nat, draw: nat) returns (r: seq<T>, next: nat)
    ensures |r| == |a|
    ensures multiset(r) == multiset(a)
    ensures next == draw + (if |a| > 0 then |a| - 1 else 0)
  {
    var result := new T[|a|](k requires 0 <= k < |a| => a[k]);
    assert result[..] == a;
    next := draw;
    var i := |a| - 1;
    while i > 0
      invariant |a| == 0 ==> i == -1 && next == draw
      invariant |a| > 0 ==> 0 <= i < |a| && next == draw + (|a| - 1 - i)
      invariant multiset(result[..]) == multiset(a)
    {
      var j := rng(next) % (i + 1);
      next := next + 1;
      result[i], result[j] := result[j], result[i];
      i := i - 1;
    }
    r := result[..];
  }
}

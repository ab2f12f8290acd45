/** Runs of equal keys in a sequence. The database build sorts its input so
    that equal keys are contiguous, then numbers the rows by counting the
    places where the key changes; everything it derives from that numbering
    is stated here once, for any key type. */
module Runs {

  /** Equal keys are contiguous: whenever a key reappears, the position just
      before the reappearance holds the same key. */
  predicate Contiguous<K(==)>(keys: seq<K>)
  {
    forall i, j :: 0 <= i < j < |keys| && keys[i] == keys[j] ==> keys[j - 1] == keys[j]
  }

  /** A run begins at `j`: the first position, or one whose key differs from
      the previous key. */
  predicate StartsRun<K(==)>(keys: seq<K>, j: nat)
    requires j < |keys|
  {
    j == 0 || keys[j] != keys[j - 1]
  }

  /** The counter of a forward scan that goes up by one whenever a run
      begins: how many runs begin at or before `j`. */
  function RunNumber<K(==)>(keys: seq<K>, j: nat): (n: nat)
    requires j < |keys|
    ensures 1 <= n <= j + 1
  {
    (if j == 0 then 0 else RunNumber(keys, j - 1)) + (if StartsRun(keys, j) then 1 else 0)
  }

  /** How far `j` lies from the start of its run. */
  function RunOffset<K(==)>(keys: seq<K>, j: nat): (d: nat)
    requires j < |keys|
    ensures d <= j && (d == 0 <==> StartsRun(keys, j))
  {
    if StartsRun(keys, j) then 0 else 1 + RunOffset(keys, j - 1)
  }

  /** How many of the first `n` positions hold `x`. */
  function Occurrences<K(==)>(keys: seq<K>, n: nat, x: K): (c: nat)
    requires n <= |keys|
    ensures c <= n
  {
    if n == 0 then 0 else Occurrences(keys, n - 1, x) + (if keys[n - 1] == x then 1 else 0)
  }

  /** The distinct keys among the first `n` positions. */
  function Distinct<K(==)>(keys: seq<K>, n: nat): set<K>
    requires n <= |keys|
  {
    set k | 0 <= k < n :: keys[k]
  }

  /** The values at the positions where runs begin, among the first `n`. */
  function AtRunStarts<K(==), T>(keys: seq<K>, vals: seq<T>, n: nat): (r: seq<T>)
    requires |vals| == |keys| && n <= |keys|
    ensures |r| <= n
  {
    if n == 0 then []
    else AtRunStarts(keys, vals, n - 1) + (if StartsRun(keys, n - 1) then [vals[n - 1]] else [])
  }

  /** The run counter never goes down. */
  lemma {:induction false} RunNumberMonotone<K>(keys: seq<K>, i: nat, j: nat)
    requires i <= j < |keys|
    ensures RunNumber(keys, i) <= RunNumber(keys, j)
    ensures RunNumber(keys, i) == RunNumber(keys, j) <==> forall k :: i < k <= j ==> !StartsRun(keys, k)
    decreases j - i
  {
    if i < j {
      RunNumberMonotone(keys, i, j - 1);
    }
  }

  /** Positions of one run hold one key, and under contiguity one key lies
      in one run: the counter identifies the key. */
  lemma {:induction false} RunNumberIdentifies<K>(keys: seq<K>, i: nat, j: nat)
    requires Contiguous(keys)
    requires i <= j < |keys|
    ensures RunNumber(keys, i) == RunNumber(keys, j) <==> keys[i] == keys[j]
    decreases j - i
  {
    RunNumberMonotone(keys, i, j);
    if i < j {
      RunNumberIdentifies(keys, i, j - 1);
      RunNumberMonotone(keys, i, j - 1);
      if keys[i] == keys[j] {
        assert keys[j - 1] == keys[j];
      }
    }
  }

  /** Under contiguity the counter at `j` is the number of distinct keys seen
      so far. */
  lemma {:induction false} RunNumberCountsDistinct<K>(keys: seq<K>, j: nat)
    requires Contiguous(keys)
    requires j < |keys|
    ensures RunNumber(keys, j) == |Distinct(keys, j + 1)|
  {
    if j == 0 {
      assert Distinct(keys, 1) == {keys[0]};
    } else {
      RunNumberCountsDistinct(keys, j - 1);
      var before := Distinct(keys, j);
      assert Distinct(keys, j + 1) == before + {keys[j]};
      if StartsRun(keys, j) {
        assert forall k :: 0 <= k < j ==> keys[k] != keys[j];
        assert keys[j] !in before;
      } else {
        assert keys[j] in before by {
          assert keys[j - 1] == keys[j];
        }
        assert before + {keys[j]} == before;
      }
    }
  }

  /** Under contiguity the offset of `j` in its run is the number of earlier
      positions that hold the same key. */
  lemma {:induction false} RunOffsetCountsEarlier<K>(keys: seq<K>, j: nat)
    requires Contiguous(keys)
    requires j < |keys|
    ensures RunOffset(keys, j) == Occurrences(keys, j, keys[j])
  {
    if StartsRun(keys, j) {
      NoEarlierOccurrence(keys, j);
    } else {
      RunOffsetCountsEarlier(keys, j - 1);
      assert keys[j - 1] == keys[j];
    }
  }

  /** The first position of a run under contiguity holds a key not seen before. */
  lemma {:induction false} NoEarlierOccurrence<K>(keys: seq<K>, j: nat)
    requires Contiguous(keys)
    requires j < |keys| && StartsRun(keys, j)
    ensures Occurrences(keys, j, keys[j]) == 0
  {
    var n := j;
    while n > 0
      invariant 0 <= n <= j
      invariant Occurrences(keys, j, keys[j]) == Occurrences(keys, n, keys[j])
      decreases n
    {
      assert keys[n - 1] != keys[j];
      n := n - 1;
    }
  }

  /** Within one run the offset grows by one per position. */
  lemma {:induction false} RunOffsetWithinRun<K>(keys: seq<K>, i: nat, j: nat)
    requires Contiguous(keys)
    requires i <= j < |keys| && keys[i] == keys[j]
    ensures RunOffset(keys, j) == RunOffset(keys, i) + (j - i)
    decreases j - i
  {
    if i < j {
      assert keys[j - 1] == keys[j];
      RunOffsetWithinRun(keys, i, j - 1);
    }
  }

  /** Every position lies in a run that begins `RunOffset` positions
      earlier, with the same key and the same counter. */
  lemma {:induction false} RunStartOf<K>(keys: seq<K>, i: nat) returns (s: nat)
    requires i < |keys|
    ensures s == i - RunOffset(keys, i) && StartsRun(keys, s)
    ensures RunNumber(keys, s) == RunNumber(keys, i) && keys[s] == keys[i]
  {
    if StartsRun(keys, i) {
      s := i;
    } else {
      s := RunStartOf(keys, i - 1);
    }
  }

  /** One value per run among the first `n` positions. */
  lemma {:induction false} AtRunStartsLength<K, T>(keys: seq<K>, vals: seq<T>, n: nat)
    requires |vals| == |keys| && 0 < n <= |keys|
    ensures |AtRunStarts(keys, vals, n)| == RunNumber(keys, n - 1)
  {
    if n > 1 {
      AtRunStartsLength(keys, vals, n - 1);
    }
  }

  /** The value at the start of run number `RunNumber(keys, j)` sits at index
      `RunNumber(keys, j) - 1`. */
  lemma {:induction false} AtRunStartsAt<K, T>(keys: seq<K>, vals: seq<T>, n: nat, j: nat)
    requires |vals| == |keys| && j < n <= |keys| && StartsRun(keys, j)
    ensures RunNumber(keys, j) <= |AtRunStarts(keys, vals, n)|
    ensures AtRunStarts(keys, vals, n)[RunNumber(keys, j) - 1] == vals[j]
  {
    AtRunStartsLength(keys, vals, n);
    RunNumberMonotone(keys, j, n - 1);
    if j < n - 1 {
      AtRunStartsAt(keys, vals, n - 1, j);
      AtRunStartsLength(keys, vals, n - 1);
    } else if j > 0 {
      AtRunStartsLength(keys, vals, j);
    }
  }

  /** Every value at index `k` is the value at the start of run `k + 1`. */
  lemma {:induction false} AtRunStartsFrom<K, T>(keys: seq<K>, vals: seq<T>, n: nat, k: nat) returns (j: nat)
    requires |vals| == |keys| && n <= |keys| && k < |AtRunStarts(keys, vals, n)|
    ensures j < n && StartsRun(keys, j) && RunNumber(keys, j) == k + 1
    ensures AtRunStarts(keys, vals, n)[k] == vals[j]
  {
    var prev := AtRunStarts(keys, vals, n - 1);
    if k < |prev| {
      j := AtRunStartsFrom(keys, vals, n - 1, k);
    } else {
      j := n - 1;
      if j > 0 {
        AtRunStartsLength(keys, vals, j);
      }
    }
  }

  /** Keys with the same run starts give the same values at run starts. */
  lemma {:induction false} AtRunStartsSameStarts<K, L, T>(a: seq<K>, b: seq<L>, vals: seq<T>, n: nat)
    requires |a| == |b| == |vals| && n <= |a|
    requires forall j :: 0 <= j < |a| ==> (StartsRun(a, j) <==> StartsRun(b, j))
    ensures AtRunStarts(a, vals, n) == AtRunStarts(b, vals, n)
  {
    if n > 0 {
      AtRunStartsSameStarts(a, b, vals, n - 1);
    }
  }

  /** Keys with the same run starts give the same run offsets. */
  lemma {:induction false} RunOffsetSameStarts<K, L>(a: seq<K>, b: seq<L>, j: nat)
    requires |a| == |b| && j < |a|
    requires forall k :: 0 <= k < |a| ==> (StartsRun(a, k) <==> StartsRun(b, k))
    ensures RunOffset(a, j) == RunOffset(b, j)
  {
    if !StartsRun(a, j) {
      RunOffsetSameStarts(a, b, j - 1);
    }
  }

  /** A counter sequence starts a run exactly where the counted keys do. */
  lemma NumbersStartWithKeys<K>(keys: seq<K>, numbers: seq<nat>)
    requires |numbers| == |keys|
    requires forall j :: 0 <= j < |keys| ==> numbers[j] == RunNumber(keys, j)
    ensures forall j :: 0 <= j < |keys| ==> (StartsRun(numbers, j) <==> StartsRun(keys, j))
  {
  }
}

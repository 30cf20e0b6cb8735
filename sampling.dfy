/** Drawing a sample without replacement, as `random.sample(population, k)`
    does. The random choice is a parameter: `draw` lists the positions of the
    population that the random source picked, in the order it picked them. */
module Sampling {
  import opened Results

  /** No element of `s` occurs twice. */
  predicate Distinct<T(==)>(s: seq<T>) {
    forall i, j :: 0 <= i < j < |s| ==> s[i] != s[j]
  }

  /** `draw` is one legal outcome of drawing `k` of `n` positions without
      replacement: `k` positions, each below `n`, none repeated. */
  predicate IsDraw(draw: seq<int>, k: int, n: int) {
    && |draw| == k
    && (forall i :: 0 <= i < |draw| ==> 0 <= draw[i] < n)
    && Distinct(draw)
  }

  /** The error `random.sample` raises when the sample size is negative or
      exceeds the population. */
  datatype SampleError = SampleLargerThanPopulationOrNegative

  /** The elements of `population` at the positions `draw` lists, in draw order. */
  function Pick<T>(population: seq<T>, draw: seq<int>): (r: seq<T>)
    requires forall i :: 0 <= i < |draw| ==> 0 <= draw[i] < |population|
    ensures |r| == |draw|
    ensures forall x :: x in r ==> x in population
  {
    seq(|draw|, i requires 0 <= i < |draw| => population[draw[i]])
  }

  /** `random.sample(population, k)`: fails unless `0 <= k <= |population|`,
      otherwise returns the `k` elements the draw selects. */
  function Sample<T>(population: seq<T>, k: int, draw: seq<int>): (r: Result<seq<T>, SampleError>)
    requires 0 <= k <= |population| ==> IsDraw(draw, k, |population|)
    ensures r.Failure? <==> k < 0 || k > |population|
    ensures r.Success? ==> |r.value| == k && forall x :: x in r.value ==> x in population
  {
    if k < 0 || k > |population| then Failure(SampleLargerThanPopulationOrNegative)
    else Success(Pick(population, draw))
  }

  /** Every sample size the call accepts has at least one legal draw, so the
      model never leaves the random source without a choice. */
  lemma DrawExists(k: int, n: int)
    requires 0 <= k <= n
    ensures exists draw :: IsDraw(draw, k, n)
  {
    var draw := seq(k, i => i);
    assert IsDraw(draw, k, n);
  }

  /** Drawing without replacement from a population without duplicates
      yields a sample without duplicates. */
  lemma SampleDistinct<T>(population: seq<T>, k: int, draw: seq<int>)
    requires 0 <= k <= |population| && IsDraw(draw, k, |population|)
    requires Distinct(population)
    ensures Sample(population, k, draw).Success?
    ensures Distinct(Sample(population, k, draw).value)
  {
    var r := Sample(population, k, draw).value;
    forall i, j | 0 <= i < j < |r| ensures r[i] != r[j] {
      assert r[i] == population[draw[i]] && r[j] == population[draw[j]];
    }
  }

  /** The values of a sequence, as a set. */
  function Elements(s: seq<int>): set<int> {
    set x | x in s
  }

  /** A sequence without duplicates has as many distinct values as elements. */
  lemma {:induction false} DistinctCard(s: seq<int>)
    requires Distinct(s)
    ensures |Elements(s)| == |s|
  {
    if s != [] {
      DistinctCard(s[1..]);
      assert Elements(s) == Elements(s[1..]) + {s[0]};
      assert s[0] !in s[1..];
    }
  }

  /** The positions below `n`. */
  function Below(n: nat): (r: set<int>)
    ensures forall x :: x in r <==> 0 <= x < n
    ensures |r| == n
  {
    if n == 0 then {} else Below(n - 1) + {n - 1}
  }

  /** Pigeonhole: drawing `n` of `n` positions picks every position. */
  lemma DrawCoversAll(draw: seq<int>, n: nat)
    requires IsDraw(draw, n, n)
    ensures forall v :: 0 <= v < n ==> v in draw
  {
    DistinctCard(draw);
    var drawn, all := Elements(draw), Below(n);
    assert drawn <= all;
    assert |all - drawn| == |all| - |drawn| == 0;
    assert all - drawn == {};
    forall v | 0 <= v < n ensures v in draw {
      assert v in all;
    }
  }

  /** Removing the draw of the last position from a draw leaves a draw, one
      shorter, of the positions before it. */
  lemma DropLast(draw: seq<int>, k: nat, n: nat, j: nat)
    requires IsDraw(draw, k, n) && j < k && draw[j] == n - 1
    ensures IsDraw(draw[..j] + draw[j + 1..], k - 1, n - 1)
  {
    var rest := draw[..j] + draw[j + 1..];
    forall i | 0 <= i < |rest|
      ensures rest[i] == (if i < j then draw[i] else draw[i + 1])
      ensures 0 <= rest[i] < n - 1
    {
      if i < j { assert draw[i] != draw[j]; } else { assert draw[i + 1] != draw[j]; }
    }
  }

  /** Picking with a draw that takes the last position at step `j` is picking
      from the rest with that step removed, the last element put back at `j`. */
  lemma PickSplit<T>(population: seq<T>, draw: seq<int>, j: nat)
    requires IsDraw(draw, |draw|, |population|) && j < |draw| && draw[j] == |population| - 1
    requires IsDraw(draw[..j] + draw[j + 1..], |draw| - 1, |population| - 1)
    ensures Pick(population, draw) ==
      var q := Pick(population[..|population| - 1], draw[..j] + draw[j + 1..]);
      q[..j] + [population[|population| - 1]] + q[j..]
  {
  }

  /** A draw that never takes the last position is a draw from the positions
      before it, and picks the same elements from them. */
  lemma AvoidLast<T>(population: seq<T>, draw: seq<int>)
    requires IsDraw(draw, |draw|, |population|) && |population| > 0
    requires |population| - 1 !in draw
    ensures IsDraw(draw, |draw|, |population| - 1)
    ensures Pick(population, draw) == Pick(population[..|population| - 1], draw)
  {
    forall i | 0 <= i < |draw| ensures draw[i] < |population| - 1 {
      assert draw[i] in draw;
    }
  }

  /** Drawing without replacement takes each occurrence in the population at
      most once, whether or not the population has duplicates. */
  lemma {:induction false} PickWithoutReplacement<T>(population: seq<T>, draw: seq<int>)
    requires IsDraw(draw, |draw|, |population|)
    ensures multiset(Pick(population, draw)) <= multiset(population)
    decreases |population|
  {
    var n := |population|;
    if n == 0 {
    } else {
      var front, last := population[..n - 1], population[n - 1];
      assert population == front + [last];
      if n - 1 in draw {
        var j :| 0 <= j < |draw| && draw[j] == n - 1;
        var rest := draw[..j] + draw[j + 1..];
        DropLast(draw, |draw|, n, j);
        PickWithoutReplacement(front, rest);
        PickSplit(population, draw, j);
        var q := Pick(front, rest);
        assert q == q[..j] + q[j..];
        calc {
          multiset(Pick(population, draw));
          multiset(q[..j]) + multiset{last} + multiset(q[j..]);
          multiset(q) + multiset{last};
        <=
          multiset(front) + multiset{last};
          multiset(population);
        }
      } else {
        AvoidLast(population, draw);
        PickWithoutReplacement(front, draw);
        assert multiset(front) <= multiset(population);
      }
    }
  }

  /** `random.sample` draws without replacement: the sample, as a multiset, is
      contained in the population. */
  lemma SampleWithoutReplacement<T>(population: seq<T>, k: int, draw: seq<int>)
    requires 0 <= k <= |population| && IsDraw(draw, k, |population|)
    ensures Sample(population, k, draw).Success?
    ensures multiset(Sample(population, k, draw).value) <= multiset(population)
  {
    PickWithoutReplacement(population, draw);
  }

  /** Picking every position of the population exactly once, in any order,
      yields a permutation of the population. */
  lemma {:induction false} PickAllIsPermutation<T>(population: seq<T>, draw: seq<int>)
    requires IsDraw(draw, |population|, |population|)
    ensures multiset(Pick(population, draw)) == multiset(population)
    decreases |population|
  {
    var n := |population|;
    if n > 0 {
      DrawCoversAll(draw, n);
      assert n - 1 in draw;
      var j :| 0 <= j < |draw| && draw[j] == n - 1;
      var rest := draw[..j] + draw[j + 1..];
      var front, last := population[..n - 1], population[n - 1];
      DropLast(draw, n, n, j);
      PickAllIsPermutation(front, rest);
      PickSplit(population, draw, j);
      var q := Pick(front, rest);
      assert q == q[..j] + q[j..];
      assert population == front + [last];
      calc {
        multiset(Pick(population, draw));
        multiset(q[..j]) + multiset{last} + multiset(q[j..]);
        multiset(q) + multiset{last};
        multiset(front) + multiset{last};
        multiset(population);
      }
    }
  }

  /** Asking for the whole population returns every element exactly once. */
  lemma SampleAllIsPermutation<T>(population: seq<T>, draw: seq<int>)
    requires IsDraw(draw, |population|, |population|)
    ensures Sample(population, |population|, draw).Success?
    ensures multiset(Sample(population, |population|, draw).value) == multiset(population)
  {
    PickAllIsPermutation(population, draw);
  }
}

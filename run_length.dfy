/** Run-length encoding of a symbol sequence with a cap on each run: the
    reference that the RKG channel encoder is proved against. A run list is
    an encoding of `s` under `cap` when it expands to `s`, every run has
    between 1 and `cap` frames, and a run is followed by one of the same
    symbol only when it is full. `Runs` builds one greedily and
    `RleIsUnique` shows it is the only one. */
module RunLength {

  /** One run: a symbol held for `length` consecutive frames. */
  datatype Run = Run(symbol: int, length: int)

  /** Python's `[x] * n`: n copies of x, none when n is not positive. */
  function Repeat<T>(x: T, n: int): seq<T> {
    seq(if n < 0 then 0 else n, _ => x)
  }

  /** The symbol sequence a run list stands for. */
  function Expand(runs: seq<Run>): seq<int> {
    if runs == [] then [] else Repeat(runs[0].symbol, runs[0].length) + Expand(runs[1..])
  }

  /** The sum of the run lengths. */
  function TotalLength(runs: seq<Run>): int {
    if runs == [] then 0 else runs[0].length + TotalLength(runs[1..])
  }

  ghost predicate LengthsInRange(runs: seq<Run>, cap: int) {
    forall k :: 0 <= k < |runs| ==> 1 <= runs[k].length <= cap
  }

  /** Two neighbouring runs share a symbol only when the first is full. */
  ghost predicate Maximal(runs: seq<Run>, cap: int) {
    forall j, k :: 0 <= j < k < |runs| && k == j + 1 && runs[j].symbol == runs[k].symbol ==>
      runs[j].length == cap
  }

  ghost predicate IsRle(runs: seq<Run>, s: seq<int>, cap: int) {
    LengthsInRange(runs, cap) && Maximal(runs, cap) && Expand(runs) == s
  }

  /** How many leading elements of `s` equal `x`, counting at most `cap`. */
  function LeadingCount(s: seq<int>, x: int, cap: nat): (n: nat)
    ensures n <= |s| && n <= cap
    ensures forall j :: 0 <= j < n ==> s[j] == x
    ensures n < |s| && n < cap ==> s[n] != x
  {
    if s == [] || cap == 0 || s[0] != x then 0 else 1 + LeadingCount(s[1..], x, cap - 1)
  }

  /** Greedy capped runs: the longest leading run of at most `cap` equal
      symbols, then the runs of what follows. */
  function Runs(s: seq<int>, cap: nat): seq<Run>
    requires cap >= 1
    decreases |s|
  {
    if s == [] then []
    else
      var n := LeadingCount(s, s[0], cap);
      [Run(s[0], n)] + Runs(s[n..], cap)
  }

  lemma {:induction false} ExpandAppend(a: seq<Run>, b: seq<Run>)
    ensures Expand(a + b) == Expand(a) + Expand(b)
  {
    if a != [] {
      assert (a + b)[0] == a[0] && (a + b)[1..] == a[1..] + b;
      ExpandAppend(a[1..], b);
    } else {
      assert a + b == b;
    }
  }

  /** The frames a run list stands for are as many as its lengths add up to. */
  lemma {:induction false} TotalLengthIsLength(runs: seq<Run>)
    requires forall k :: 0 <= k < |runs| ==> runs[k].length >= 0
    ensures TotalLength(runs) == |Expand(runs)|
  {
    if runs != [] {
      TotalLengthIsLength(runs[1..]);
    }
  }

  /** The first symbol of a run list whose first run is not empty. */
  lemma ExpandHead(runs: seq<Run>)
    requires runs != [] && runs[0].length >= 1
    ensures Expand(runs) != [] && Expand(runs)[0] == runs[0].symbol
  {
  }

  /** Every run's symbol occurs in the expansion when the run is not empty. */
  lemma {:induction false} ExpandContains(runs: seq<Run>, k: int)
    requires 0 <= k < |runs| && runs[k].length >= 1
    ensures runs[k].symbol in Expand(runs)
  {
    if k == 0 {
      ExpandHead(runs);
    } else {
      ExpandContains(runs[1..], k - 1);
    }
  }

  /** Every symbol of the expansion is the symbol of some run. */
  lemma {:induction false} ExpandOnlyRunSymbols(runs: seq<Run>, i: int)
    requires 0 <= i < |Expand(runs)|
    ensures exists k :: 0 <= k < |runs| && runs[k].symbol == Expand(runs)[i]
  {
    if runs != [] {
      var head := Repeat(runs[0].symbol, runs[0].length);
      if i >= |head| {
        ExpandOnlyRunSymbols(runs[1..], i - |head|);
        var k :| 0 <= k < |runs[1..]| && runs[1..][k].symbol == Expand(runs[1..])[i - |head|];
        assert runs[k + 1].symbol == Expand(runs)[i];
      } else {
        assert runs[0].symbol == Expand(runs)[i];
      }
    }
  }

  /** The greedy runs are a capped run-length encoding of `s`. */
  lemma {:induction false} RunsAreRle(s: seq<int>, cap: nat)
    requires cap >= 1
    ensures IsRle(Runs(s, cap), s, cap)
    decreases |s|
  {
    if s != [] {
      var n := LeadingCount(s, s[0], cap);
      var rest := Runs(s[n..], cap);
      RunsAreRle(s[n..], cap);
      var runs := Runs(s, cap);
      assert runs == [Run(s[0], n)] + rest;
      assert runs[1..] == rest;
      assert Repeat(s[0], n) == s[..n];
      assert Expand(runs) == s[..n] + s[n..] == s;
      forall j, k | 0 <= j < k < |runs| && k == j + 1 && runs[j].symbol == runs[k].symbol
        ensures runs[j].length == cap
      {
        if j == 0 {
          ExpandHead(rest);
          assert s[n] == rest[0].symbol;
        } else {
          assert rest[j - 1] == runs[j] && rest[k - 1] == runs[k];
        }
      }
      assert LengthsInRange(runs, cap) by {
        forall k | 0 <= k < |runs| ensures 1 <= runs[k].length <= cap {
          if k > 0 {
            assert runs[k] == rest[k - 1];
          }
        }
      }
    }
  }

  /** A count that has the three properties of LeadingCount is LeadingCount. */
  lemma LeadingCountUnique(s: seq<int>, x: int, cap: nat, m: nat)
    requires m <= |s| && m <= cap
    requires forall j :: 0 <= j < m ==> s[j] == x
    requires m < |s| && m < cap ==> s[m] != x
    ensures m == LeadingCount(s, x, cap)
  {
  }

  /** A capped run-length encoding is unique: any run list that is one for
      `s` is the greedy one. */
  lemma {:induction false} RleIsUnique(runs: seq<Run>, s: seq<int>, cap: nat)
    requires cap >= 1
    requires IsRle(runs, s, cap)
    ensures runs == Runs(s, cap)
    decreases |runs|
  {
    if runs != [] {
      var x, m := runs[0].symbol, runs[0].length;
      var rest := runs[1..];
      assert s == Repeat(x, m) + Expand(rest);
      assert s[m..] == Expand(rest);
      assert s[0] == x;
      if m < |s| {
        ExpandHead(rest);
        assert s[m] == rest[0].symbol;
        assert runs[0].symbol == runs[1].symbol ==> m == cap;
      }
      LeadingCountUnique(s, x, cap, m);
      assert IsRle(rest, s[m..], cap) by {
        forall k | 0 <= k < |rest| ensures 1 <= rest[k].length <= cap {
          assert rest[k] == runs[k + 1];
        }
        forall j, k | 0 <= j < k < |rest| && k == j + 1 && rest[j].symbol == rest[k].symbol
          ensures rest[j].length == cap
        {
          assert rest[j] == runs[j + 1] && rest[k] == runs[k + 1];
        }
      }
      RleIsUnique(rest, s[m..], cap);
      assert runs == [Run(x, m)] + rest;
    }
  }

  /** One more symbol either lengthens the last run, when it has the same
      symbol and is not full, or starts a new run of one; both keep the run
      list a capped run-length encoding. */
  lemma RleSnoc(runs: seq<Run>, x: int, n: int, s: seq<int>, cap: int, y: int)
    requires cap >= 1
    requires IsRle(runs + [Run(x, n)], s, cap)
    ensures s != [] && s[|s| - 1] == x
    ensures x == y && n < cap ==> IsRle(runs + [Run(x, n + 1)], s + [y], cap)
    ensures x != y || n >= cap ==> IsRle(runs + [Run(x, n), Run(y, 1)], s + [y], cap)
  {
    var last := runs + [Run(x, n)];
    assert last[|runs|] == Run(x, n);
    ExpandAppend(runs, [Run(x, n)]);
    assert Expand([Run(x, n)]) == Repeat(x, n);
    if x == y && n < cap {
      var grown := runs + [Run(x, n + 1)];
      ExpandAppend(runs, [Run(x, n + 1)]);
      assert Expand([Run(x, n + 1)]) == Repeat(x, n + 1) == Repeat(x, n) + [y];
      assert Expand(grown) == s + [y];
      forall j, k | 0 <= j < k < |grown| && k == j + 1 && grown[j].symbol == grown[k].symbol
        ensures grown[j].length == cap
      {
        assert last[j] == grown[j] && last[k].symbol == grown[k].symbol;
      }
      assert LengthsInRange(grown, cap) by {
        forall k | 0 <= k < |grown| ensures 1 <= grown[k].length <= cap {
          if k < |runs| {
            assert grown[k] == last[k];
          }
        }
      }
    }
    if x != y || n >= cap {
      var split := runs + [Run(x, n), Run(y, 1)];
      assert split == last + [Run(y, 1)];
      ExpandAppend(last, [Run(y, 1)]);
      assert Expand([Run(y, 1)]) == [y];
      forall j, k | 0 <= j < k < |split| && k == j + 1 && split[j].symbol == split[k].symbol
        ensures split[j].length == cap
      {
        if k < |last| {
          assert last[j] == split[j] && last[k] == split[k];
        } else {
          assert split[j] == Run(x, n) && last[j] == Run(x, n);
        }
      }
      assert LengthsInRange(split, cap) by {
        forall k | 0 <= k < |split| ensures 1 <= split[k].length <= cap {
          if k < |last| {
            assert split[k] == last[k];
          }
        }
      }
    }
  }

  /** The greedy encoding loses no frames: its lengths add up to |s|. */
  lemma RunsConserveLength(s: seq<int>, cap: nat)
    requires cap >= 1
    ensures TotalLength(Runs(s, cap)) == |s|
  {
    RunsAreRle(s, cap);
    TotalLengthIsLength(Runs(s, cap));
  }

  /** 1000 equal symbols under a cap of 255 make three full runs and one of 235. */
  lemma ThousandEqualSymbols(x: int)
    ensures Runs(Repeat(x, 1000), 255) == [Run(x, 255), Run(x, 255), Run(x, 255), Run(x, 235)]
  {
    var runs := [Run(x, 255), Run(x, 255), Run(x, 255), Run(x, 235)];
    assert Expand(runs[3..]) == Repeat(x, 235);
    assert Expand(runs[2..]) == Repeat(x, 255) + Repeat(x, 235) == Repeat(x, 490);
    assert Expand(runs[1..]) == Repeat(x, 255) + Repeat(x, 490) == Repeat(x, 745);
    assert Expand(runs) == Repeat(x, 255) + Repeat(x, 745) == Repeat(x, 1000);
    RleIsUnique(runs, Repeat(x, 1000), 255);
  }
}

/**
 What a flame graph of a CPU profile should say (debug_profiles.go:258-314): which call paths
 it has and how many nanoseconds each of them stands for, read off the list of samples.
 */
module FlameGraphSpec {

  type int64 = x: int | -0x8000_0000_0000_0000 <= x < 0x8000_0000_0000_0000

  /** Go's int64 arithmetic: the value congruent to `x` modulo 2^64. */
  function Wrap64(x: int): int64 {
    (x + 0x8000_0000_0000_0000) % 0x1_0000_0000_0000_0000 - 0x8000_0000_0000_0000
  }

  lemma WrapAdd(a: int, b: int)
    ensures Wrap64(Wrap64(a) + b) == Wrap64(a + b)
  {
  }

  datatype Line = Line(functionName: string, fileName: string, line: int)

  /** A location without lines is one that could not be symbolised. */
  datatype Location = Location(lines: seq<Line>)

  /** `locations` is leaf first. */
  datatype Sample = Sample(locations: seq<Location>, values: seq<int64>)

  datatype SampleType = SampleType(kind: string, unit: string)

  datatype Profile = Profile(sampleTypes: seq<SampleType>, samples: seq<Sample>)

  /** Function names from the root down. */
  type Path = seq<string>

  /** The symbolised part of a stack, root first, without the `i` locations closest to the leaf. */
  function Outer(locations: seq<Location>, i: nat): Path
    requires i <= |locations|
    decreases |locations| - i
  {
    if i == |locations| then []
    else Outer(locations, i + 1) + if locations[i].lines == [] then [] else [locations[i].lines[0].functionName]
  }

  function Stack(s: Sample): Path {
    Outer(s.locations, 0)
  }

  predicate HasLeaf(s: Sample) {
    s.locations != [] && s.locations[0].lines != []
  }

  function Value(s: Sample, v: nat): int {
    if v < |s.values| then s.values[v] else 0
  }

  /** The time spent below a path: all samples whose stack begins with it. */
  function Total(samples: seq<Sample>, v: nat, p: Path): int {
    if samples == [] then 0
    else
      var n := |samples| - 1;
      Total(samples[..n], v, p) + if p <= Stack(samples[n]) then Value(samples[n], v) else 0
  }

  /** The time spent in a path itself: samples with exactly this stack and a symbolised leaf. */
  function Self(samples: seq<Sample>, v: nat, p: Path): int {
    if samples == [] then 0
    else
      var n := |samples| - 1;
      Self(samples[..n], v, p) + if p == Stack(samples[n]) && HasLeaf(samples[n]) then Value(samples[n], v) else 0
  }

  /** The time of samples whose symbolised stack ends here above an unsymbolised leaf. */
  function Cut(samples: seq<Sample>, v: nat, p: Path): int {
    if samples == [] then 0
    else
      var n := |samples| - 1;
      Cut(samples[..n], v, p) + if p == Stack(samples[n]) && !HasLeaf(samples[n]) then Value(samples[n], v) else 0
  }

  ghost predicate Reached(samples: seq<Sample>, p: Path) {
    p == [] || exists k :: 0 <= k < |samples| && p <= Stack(samples[k])
  }

  lemma ReachedSnoc(samples: seq<Sample>, s: Sample, p: Path)
    ensures Reached(samples + [s], p) <==> Reached(samples, p) || p <= Stack(s)
  {
    var all := samples + [s];
    if Reached(samples, p) && p != [] {
      var k :| 0 <= k < |samples| && p <= Stack(samples[k]);
      assert p <= Stack(all[k]);
    }
    if p <= Stack(s) {
      assert p <= Stack(all[|samples|]);
    }
    if Reached(all, p) && p != [] {
      var k :| 0 <= k < |all| && p <= Stack(all[k]);
      assert k < |samples| ==> p <= Stack(samples[k]);
    }
  }

  lemma {:induction false} NotReachedIsZero(samples: seq<Sample>, v: nat, p: Path)
    requires !Reached(samples, p)
    ensures Total(samples, v, p) == 0 && Self(samples, v, p) == 0
  {
    if samples == [] {
    } else {
      var n := |samples| - 1;
      assert samples == samples[..n] + [samples[n]];
      ReachedSnoc(samples[..n], samples[n], p);
      NotReachedIsZero(samples[..n], v, p);
    }
  }

  // ----- time is conserved

  function SumOver(names: seq<string>, samples: seq<Sample>, v: nat, p: Path): int {
    if names == [] then 0
    else SumOver(names[1..], samples, v, p) + Total(samples, v, p + [names[0]])
  }

  ghost predicate Distinct(names: seq<string>) {
    forall i, j :: 0 <= i < j < |names| ==> names[i] != names[j]
  }

  /** `names` has every function called from path `p` in some sample. */
  ghost predicate Callees(names: seq<string>, samples: seq<Sample>, p: Path) {
    forall i :: 0 <= i < |samples| ==> CalleeIn(names, samples[i], p)
  }

  predicate CalleeIn(names: seq<string>, s: Sample, p: Path) {
    p < Stack(s) ==> Stack(s)[|p|] in names
  }

  /** Adding a sample adds its value to the sum over the callees exactly if it goes on below `p`. */
  lemma {:induction false} SumOverSnoc(names: seq<string>, samples: seq<Sample>, v: nat, p: Path)
    requires samples != [] && Distinct(names)
    ensures var n := |samples| - 1;
            var s := samples[n];
            SumOver(names, samples, v, p) ==
            SumOver(names, samples[..n], v, p) + if p < Stack(s) && Stack(s)[|p|] in names then Value(s, v) else 0
  {
    if names == [] {
    } else {
      var s := samples[|samples| - 1];
      SumOverSnoc(names[1..], samples, v, p);
      assert p + [names[0]] <= Stack(s) <==> p < Stack(s) && Stack(s)[|p|] == names[0];
      assert names == [names[0]] + names[1..];
      if p < Stack(s) && Stack(s)[|p|] == names[0] {
        assert names[0] !in names[1..] by {
          assert forall j :: 0 <= j < |names[1..]| ==> names[1..][j] == names[j + 1] != names[0];
        }
      }
    }
  }

  /** The time below a path is its own time, the times below its callees, and the time cut off there. */
  lemma {:induction false} TimeConserved(names: seq<string>, samples: seq<Sample>, v: nat, p: Path)
    requires Distinct(names) && Callees(names, samples, p)
    ensures Total(samples, v, p) == Self(samples, v, p) + SumOver(names, samples, v, p) + Cut(samples, v, p)
  {
    if samples == [] {
      SumOverNone(names, v, p);
    } else {
      var n := |samples| - 1;
      forall i | 0 <= i < n ensures CalleeIn(names, samples[..n][i], p) {
        assert CalleeIn(names, samples[i], p);
      }
      assert CalleeIn(names, samples[n], p);
      TimeConserved(names, samples[..n], v, p);
      SumOverSnoc(names, samples, v, p);
    }
  }

  lemma {:induction false} SumOverNone(names: seq<string>, v: nat, p: Path)
    ensures SumOver(names, [], v, p) == 0
  {
    if names == [] {
    } else {
      SumOverNone(names[1..], v, p);
    }
  }

  // ----- the own times of all paths add up

  ghost function SelfSum(paths: set<Path>, samples: seq<Sample>, v: nat): int {
    if paths == {} then 0
    else
      var p :| p in paths;
      SelfSum(paths - {p}, samples, v) + Self(samples, v, p)
  }

  /** One more sample adds its value to the sum once, at the path that is its stack. */
  lemma {:induction false} SelfSumSnoc(paths: set<Path>, samples: seq<Sample>, v: nat)
    requires samples != []
    ensures var n := |samples| - 1;
            SelfSum(paths, samples, v) ==
            SelfSum(paths, samples[..n], v)
            + if Stack(samples[n]) in paths && HasLeaf(samples[n]) then Value(samples[n], v) else 0
    decreases |paths|
  {
    if paths != {} {
      var p :| p in paths && SelfSum(paths, samples, v) == SelfSum(paths - {p}, samples, v) + Self(samples, v, p);
      var n := |samples| - 1;
      SelfSumSnoc(paths - {p}, samples, v);
      SelfSumPick(paths, p, samples[..n], v);
      assert Self(samples, v, p) ==
             Self(samples[..n], v, p)
             + if p == Stack(samples[n]) && HasLeaf(samples[n]) then Value(samples[n], v) else 0;
    } else {
      assert SelfSum(paths, samples, v) == 0 && SelfSum(paths, samples[..|samples| - 1], v) == 0;
    }
  }

  /** The sum does not depend on which path is taken out first. */
  lemma {:induction false} SelfSumPick(paths: set<Path>, p: Path, samples: seq<Sample>, v: nat)
    requires p in paths
    ensures SelfSum(paths, samples, v) == SelfSum(paths - {p}, samples, v) + Self(samples, v, p)
    decreases |paths|
  {
    var q :| q in paths && SelfSum(paths, samples, v) == SelfSum(paths - {q}, samples, v) + Self(samples, v, q);
    if q != p {
      SelfSumPick(paths - {q}, p, samples, v);
      SelfSumPick(paths - {p}, q, samples, v);
      assert paths - {q} - {p} == paths - {p} - {q};
    }
  }

  lemma {:induction false} SelfSumNone(paths: set<Path>, v: nat)
    ensures SelfSum(paths, [], v) == 0
    decreases |paths|
  {
    if paths != {} {
      var p :| p in paths && SelfSum(paths, [], v) == SelfSum(paths - {p}, [], v) + Self([], v, p);
      SelfSumNone(paths - {p}, v);
      assert Self([], v, p) == 0;
    } else {
      assert SelfSum(paths, [], v) == 0;
    }
  }

  /** If every sample has a symbolised leaf, the own times of all paths add up to the root's total. */
  lemma {:induction false} SelfTimesAddUp(paths: set<Path>, samples: seq<Sample>, v: nat)
    requires forall s <- samples :: HasLeaf(s) && Stack(s) in paths
    ensures SelfSum(paths, samples, v) == Total(samples, v, [])
  {
    if samples == [] {
      SelfSumNone(paths, v);
    } else {
      var n := |samples| - 1;
      assert samples[n] in samples && forall s <- samples[..n] :: s in samples;
      SelfTimesAddUp(paths, samples[..n], v);
      SelfSumSnoc(paths, samples, v);
    }
  }

  // ----- the order of samples does not matter

  lemma {:induction false} TakeOut(samples: seq<Sample>, i: nat, v: nat, p: Path)
    requires i < |samples|
    ensures var rest, s := samples[..i] + samples[i + 1..], samples[i];
            && Total(samples, v, p) == Total(rest, v, p) + (if p <= Stack(s) then Value(s, v) else 0)
            && Self(samples, v, p) == Self(rest, v, p) + (if p == Stack(s) && HasLeaf(s) then Value(s, v) else 0)
  {
    var n := |samples| - 1;
    var rest := samples[..i] + samples[i + 1..];
    if i == n {
      assert rest == samples[..n];
    } else {
      TakeOut(samples[..n], i, v, p);
      assert rest[..n - 1] == samples[..n][..i] + samples[..n][i + 1..];
      assert rest[n - 1] == samples[n];
    }
  }

  /** The last element of a sequence has a place in any permutation, and the rest is permuted. */
  lemma SamePlace<T>(a: seq<T>, b: seq<T>) returns (i: nat)
    requires a != [] && multiset(a) == multiset(b)
    ensures i < |b| && b[i] == a[|a| - 1]
    ensures multiset(b[..i] + b[i + 1..]) == multiset(a[..|a| - 1])
  {
    var init, x := a[..|a| - 1], a[|a| - 1];
    assert a == init + [x];
    assert x in multiset(b);
    i :| 0 <= i < |b| && b[i] == x;
    var rest := b[..i] + b[i + 1..];
    assert b == b[..i] + [x] + b[i + 1..];
    assert multiset(b) == multiset(rest) + multiset{x};
    assert multiset(init) == multiset(a) - multiset{x};
    assert multiset(rest) == multiset(b) - multiset{x};
  }

  lemma {:induction false} OrderIrrelevant(samples: seq<Sample>, samples': seq<Sample>, v: nat, p: Path)
    requires multiset(samples) == multiset(samples')
    ensures Total(samples, v, p) == Total(samples', v, p) && Self(samples, v, p) == Self(samples', v, p)
    decreases |samples|
  {
    if samples == [] {
      assert multiset(samples') == multiset{};
      assert |samples'| == |multiset(samples')|;
    } else {
      var n := |samples| - 1;
      var s := samples[n];
      var i := SamePlace(samples, samples');
      var rest := samples'[..i] + samples'[i + 1..];
      TakeOut(samples', i, v, p);
      OrderIrrelevant(samples[..n], rest, v, p);
    }
  }

  // ----- the same in terms of the profile's own numbers and names

  /** Every sample has a value at `v`. */
  ghost predicate AllMeasured(samples: seq<Sample>, v: nat) {
    forall k :: 0 <= k < |samples| ==> v < |samples[k].values|
  }

  ghost function SumOfValues(samples: seq<Sample>, v: nat): int
    requires AllMeasured(samples, v)
  {
    if samples == [] then 0
    else SumOfValues(samples[..|samples| - 1], v) + samples[|samples| - 1].values[v]
  }

  /** The root stands for all samples, whatever their stacks. */
  lemma {:induction false} RootTotal(samples: seq<Sample>, v: nat)
    requires AllMeasured(samples, v)
    ensures Total(samples, v, []) == SumOfValues(samples, v)
  {
    if samples == [] {
    } else {
      RootTotal(samples[..|samples| - 1], v);
    }
  }

  /** One more sample adds its value at `v` to every path its stack begins with, and to the own
      time of its whole stack if its leaf is symbolised, and changes nothing else. */
  lemma OneMoreSample(samples: seq<Sample>, s: Sample, v: nat, p: Path)
    requires v < |s.values|
    ensures Total(samples + [s], v, p) == Total(samples, v, p) + if p <= Stack(s) then s.values[v] else 0
    ensures Self(samples + [s], v, p) ==
            Self(samples, v, p)
            + if p == Stack(s) && s.locations != [] && s.locations[0].lines != [] then s.values[v] else 0
  {
    assert (samples + [s])[..|samples|] == samples;
  }

  /** The stack is the function names of the symbolised locations, outermost first. */
  lemma StackExactly(s: Sample) returns (js: seq<nat>)
    ensures |js| == |Stack(s)|
    ensures forall a, b :: 0 <= a < b < |js| ==> js[b] < js[a]
    ensures forall a :: 0 <= a < |js| ==>
              && js[a] < |s.locations| && s.locations[js[a]].lines != []
              && Stack(s)[a] == s.locations[js[a]].lines[0].functionName
    ensures forall i :: 0 <= i < |s.locations| && s.locations[i].lines != [] ==> i in js
  {
    js := OuterExactly(s.locations, 0);
  }

  /** `js` are the symbolised locations from `i` on, falling, and `names` their function names. */
  predicate NamesAt(locations: seq<Location>, i: nat, js: seq<nat>, names: Path) {
    && |js| == |names|
    && (forall a, b :: 0 <= a < b < |js| ==> js[b] < js[a])
    && (forall a :: 0 <= a < |js| ==>
          && i <= js[a] < |locations| && locations[js[a]].lines != []
          && names[a] == locations[js[a]].lines[0].functionName)
    && (forall k :: i <= k < |locations| && locations[k].lines != [] ==> k in js)
  }

  lemma {:induction false} OuterExactly(locations: seq<Location>, i: nat) returns (js: seq<nat>)
    requires i <= |locations|
    ensures NamesAt(locations, i, js, Outer(locations, i))
    decreases |locations| - i
  {
    if i == |locations| {
      js := [];
    } else {
      js := OuterExactly(locations, i + 1);
      NamesStep(locations, i, js, Outer(locations, i + 1));
      assert Outer(locations, i + 1) + [] == Outer(locations, i + 1);
      if locations[i].lines != [] {
        js := js + [i];
      }
    }
  }

  lemma NamesStep(locations: seq<Location>, i: nat, js: seq<nat>, names: Path)
    requires i < |locations| && NamesAt(locations, i + 1, js, names)
    ensures locations[i].lines == [] ==> NamesAt(locations, i, js, names)
    ensures locations[i].lines != [] ==>
              NamesAt(locations, i, js + [i], names + [locations[i].lines[0].functionName])
  {
    if locations[i].lines != [] {
      forall k | i <= k < |locations| && locations[k].lines != [] ensures k in js + [i] {
        if k > i { assert k in js; }
      }
    }
  }
}

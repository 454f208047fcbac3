/** `chooseSmartParagraphSections` (auto_fill.js): a deterministic,
    evenly spaced choice of a few eligible paragraph sections per article,
    seeded by `stableHash(filePath + ":" + count)`. */
module SectionSampler {
  import opened Wrappers
  import opened Text
  import Hashing

  /** A section as the parser hands it over: an optional preceding heading,
      its text, and a back-reference to its element in the document. */
  datatype Section = Section(header: Option<string>, text: string, element: nat)

  const MinEligibleLength: nat := 20

  function Min(a: int, b: int): int { if a <= b then a else b }
  function Max(a: int, b: int): int { if a >= b then a else b }

  /** `(section.header || "") + " " + section.text`. */
  function TextToAnalyze(s: Section): string {
    s.header.GetOr("") + " " + s.text
  }

  /** The trimmed text is at least 20 UTF-16 code units long. */
  predicate IsEligible(s: Section) {
    Hashing.Utf16Length(Trim(TextToAnalyze(s))) >= MinEligibleLength
  }

  /** `xs.filter(keep)`: the kept elements, in their original order. */
  function Filter(xs: seq<Section>, keep: Section -> bool): (r: seq<Section>)
    ensures |r| <= |xs|
  {
    if xs == [] then [] else (if keep(xs[0]) then [xs[0]] else []) + Filter(xs[1..], keep)
  }

  /** The filter keeps exactly the elements that pass. */
  lemma {:induction false} FilterMembers(xs: seq<Section>, keep: Section -> bool)
    ensures forall x :: x in Filter(xs, keep) <==> x in xs && keep(x)
  {
    if xs != [] {
      var head, tail := xs[0], xs[1..];
      FilterMembers(tail, keep);
      assert xs == [head] + tail;
      assert Filter(xs, keep) == (if keep(head) then [head] else []) + Filter(tail, keep);
    }
  }

  /** Filtering distributes over concatenation, so the relative order of the
      kept elements is the original one. */
  lemma {:induction false} FilterConcat(a: seq<Section>, b: seq<Section>, keep: Section -> bool)
    ensures Filter(a + b, keep) == Filter(a, keep) + Filter(b, keep)
  {
    if a == [] {
      assert a + b == b;
    } else {
      var head, tail := a[0], a[1..];
      var kept := if keep(head) then [head] else [];
      assert (a + b)[0] == head && (a + b)[1..] == tail + b;
      assert Filter(a + b, keep) == kept + Filter(tail + b, keep);
      assert Filter(a, keep) == kept + Filter(tail, keep);
      FilterConcat(tail, b, keep);
      assert kept + (Filter(tail, keep) + Filter(b, keep)) == (kept + Filter(tail, keep)) + Filter(b, keep);
    }
  }

  /** Filtering a list whose elements all pass changes nothing. */
  lemma {:induction false} FilterAll(xs: seq<Section>, keep: Section -> bool)
    requires forall i :: 0 <= i < |xs| ==> keep(xs[i])
    ensures Filter(xs, keep) == xs
  {
    if xs != [] {
      FilterAll(xs[1..], keep);
    }
  }

  /** `sections.filter(...)` for eligibility. */
  function Eligible(sections: seq<Section>): (r: seq<Section>)
    ensures |r| <= |sections|
  {
    Filter(sections, IsEligible)
  }

  /** The eligible list holds exactly the eligible sections ... */
  lemma EligibleMembers(sections: seq<Section>)
    ensures forall x :: x in Eligible(sections) <==> x in sections && IsEligible(x)
  {
    FilterMembers(sections, IsEligible);
  }

  /** ... in their original order. */
  lemma EligibleOfConcat(a: seq<Section>, b: seq<Section>)
    ensures Eligible(a + b) == Eligible(a) + Eligible(b)
  {
    FilterConcat(a, b, IsEligible);
  }

  /** `Math.round(a / b)` for non-negative integers: halves round up. */
  function RoundDiv(a: nat, b: nat): (r: nat)
    requires b > 0
    ensures 2 * r * b <= 2 * a + b < 2 * (r + 1) * b
  {
    (2 * a + b) / (2 * b)
  }

  /** The number of sections to pick for `n` eligible ones. */
  function TargetCount(n: nat): (t: nat)
    requires n > 0
    ensures 1 <= t <= 5 && t <= n
  {
    var t :=
      if n < 6 then 1
      else if n < 12 then 2
      else if n < 20 then 3
      else Min(5, Max(4, RoundDiv(n, 6)));
    Min(t, n)
  }

  /** `skipEdges`: 1 keeps the first and last eligible section out. */
  function SkipEdges(n: nat): nat {
    if n >= 5 then 1 else 0
  }

  function Span(n: nat): nat {
    Max(1, n - 2 * SkipEdges(n))
  }

  function Interval(n: nat): (r: nat)
    requires n > 0
    ensures r >= 2
  {
    Max(2, Span(n) / TargetCount(n))
  }

  /** `startIndex`, after the reset to `skipEdges` when it falls past the end. */
  function StartIndex(n: nat, seed: nat): nat
    requires n > 0
  {
    var s := SkipEdges(n) + seed % Interval(n);
    if s >= n - SkipEdges(n) then SkipEdges(n) else s
  }

  /** The indices the `for` loop visits from `idx`, stepping by `step`, below
      `limit`, stopping after `want` of them. */
  function Walk(idx: nat, limit: nat, step: nat, want: nat): (r: seq<nat>)
    requires step >= 1
    ensures |r| <= want
    ensures forall k :: 0 <= k < |r| ==> idx <= r[k] < limit
    ensures r != [] <==> idx < limit && want > 0
    ensures r != [] ==> r[0] == idx
    decreases limit - idx
  {
    if idx >= limit || want == 0 then [] else [idx] + Walk(idx + step, limit, step, want - 1)
  }

  /** The walk is as long as asked when its last step still lands below the limit. */
  lemma {:induction false} WalkLength(idx: nat, limit: nat, step: nat, want: nat)
    requires step >= 1 && want >= 1
    requires idx + (want - 1) * step < limit
    ensures |Walk(idx, limit, step, want)| == want
    decreases want
  {
    if want > 1 {
      assert (idx + step) + (want - 2) * step == idx + (want - 1) * step;
      WalkLength(idx + step, limit, step, want - 1);
    }
  }

  /** Consecutive entries of `r` are exactly `step` apart. */
  predicate Stepped(r: seq<nat>, step: nat) {
    forall k :: 0 <= k < |r| - 1 ==> r[k + 1] == r[k] + step
  }

  /** Consecutive visited indices are exactly one step apart. */
  lemma {:induction false} WalkSteps(idx: nat, limit: nat, step: nat, want: nat)
    requires step >= 1
    ensures Stepped(Walk(idx, limit, step, want), step)
    decreases limit - idx
  {
    if idx < limit && want > 0 {
      var rest := Walk(idx + step, limit, step, want - 1);
      WalkSteps(idx + step, limit, step, want - 1);
      var r := Walk(idx, limit, step, want);
      assert r == [idx] + rest;
      forall k | 0 <= k < |r| - 1
        ensures r[k + 1] == r[k] + step
      {
        if k == 0 {
          assert rest != [] && r[1] == rest[0] && r[0] == idx;
          assert rest[0] == idx + step;
        } else {
          assert r[k + 1] == rest[k] && r[k] == rest[k - 1];
        }
      }
    }
  }

  /** The chosen indices into the eligible list, with the single-element fallback. */
  function Plan(n: nat, seed: nat): seq<nat> {
    if n == 0 then []
    else
      var fallback: nat := Min(SkipEdges(n), n - 1);
      var w := Walk(StartIndex(n, seed), n - SkipEdges(n), Interval(n), TargetCount(n));
      if w == [] then [fallback] else w
  }

  /** The elements of `e` at the positions `idx`, in that order. */
  function Pick(e: seq<Section>, idx: seq<nat>): (r: seq<Section>)
    requires forall k :: 0 <= k < |idx| ==> idx[k] < |e|
    ensures |r| == |idx|
    ensures forall k :: 0 <= k < |idx| ==> r[k] == e[idx[k]]
  {
    seq(|idx|, k requires 0 <= k < |idx| => e[idx[k]])
  }

  lemma PickPointwise(e: seq<Section>, idx: seq<nat>, r: seq<Section>)
    requires forall k :: 0 <= k < |idx| ==> idx[k] < |e|
    requires |r| == |idx| && forall k :: 0 <= k < |idx| ==> r[k] == e[idx[k]]
    ensures r == Pick(e, idx)
  {
  }

  /** The seed string `${filePath}:${count}`. */
  function SeedKey(filePath: string, count: nat): string {
    filePath + ":" + Decimal(count)
  }

  /** What `chooseSmartParagraphSections(sections, filePath)` returns. */
  function SmartSelection(sections: seq<Section>, filePath: string): seq<Section> {
    Selection(sections, Hashing.Hash(SeedKey(filePath, |Eligible(sections)|)))
  }

  /** The sections the plan for `seed` picks out of the eligible ones. */
  function Selection(sections: seq<Section>, seed: nat): seq<Section> {
    var e := Eligible(sections);
    PlanInRange(|e|, seed);
    Pick(e, Plan(|e|, seed))
  }

  /** The shape of the plan for `n > 0` eligible sections and any seed:
      exactly `TargetCount(n)` indices, all in `[skipEdges, n - skipEdges)`,
      each `Interval(n) >= 2` past the previous one; the walk is never empty,
      so the fallback never fires. */
  lemma PlanShape(n: nat, seed: nat)
    requires n > 0
    ensures var p := Plan(n, seed);
      && p == Walk(StartIndex(n, seed), n - SkipEdges(n), Interval(n), TargetCount(n))
      && |p| == TargetCount(n)
      && (forall k :: 0 <= k < |p| ==> SkipEdges(n) <= p[k] < n - SkipEdges(n))
      && (forall k :: 0 <= k < |p| - 1 ==> p[k + 1] == p[k] + Interval(n))
  {
    LastStepFits(n, seed);
    WalkSteps(StartIndex(n, seed), n - SkipEdges(n), Interval(n), TargetCount(n));
    WalkLength(StartIndex(n, seed), n - SkipEdges(n), Interval(n), TargetCount(n));
  }

  /** The start lies in `[skipEdges, skipEdges + interval)` and below the end. */
  lemma StartBounds(n: nat, seed: nat)
    requires n > 0
    ensures SkipEdges(n) <= StartIndex(n, seed) < n - SkipEdges(n)
    ensures StartIndex(n, seed) < SkipEdges(n) + Interval(n)
  {
  }

  /** The last of the `TargetCount` steps still lands before the protected
      end; `TargetCount` and `Interval` are worked out per range of `n`. */
  lemma LastStepFits(n: nat, seed: nat)
    requires n > 0
    ensures StartIndex(n, seed) + (TargetCount(n) - 1) * Interval(n) < n - SkipEdges(n)
  {
    StartBounds(n, seed);
    var t, step := TargetCount(n), Interval(n);
    if n < 6 {
      assert t == 1;
      Steps(t, step, 0);
    } else if n < 12 {
      assert t == 2 && step == (n - 2) / 2;
      Steps(t, step, 1);
    } else if n < 20 {
      assert t == 3 && step == (n - 2) / 3;
      Steps(t, step, 2);
    } else if t == 4 {
      assert step == (n - 2) / 4;
      Steps(t, step, 3);
    } else {
      assert t == 5 && step == (n - 2) / 5;
      Steps(t, step, 4);
    }
  }

  lemma Steps(t: nat, step: nat, k: nat)
    requires t == k + 1
    ensures (t - 1) * step == k * step
  {
  }

  lemma PlanInRange(n: nat, seed: nat)
    ensures forall k :: 0 <= k < |Plan(n, seed)| ==> Plan(n, seed)[k] < n
  {
    if n > 0 {
      PlanShape(n, seed);
    }
  }

  /** The plan's properties carried over to the sections, for any seed:
      nothing is chosen exactly when nothing is eligible; otherwise exactly
      `TargetCount(N)` sections, all of them eligible. Where they sit in the
      eligible list is `PlanShape`. */
  lemma SelectionProperties(sections: seq<Section>, seed: nat)
    ensures var sel := Selection(sections, seed);
      && (sel == [] <==> forall x :: x in sections ==> !IsEligible(x))
      && (Eligible(sections) != [] ==> |sel| == TargetCount(|Eligible(sections)|) <= 5)
      && (forall x :: x in sel ==> x in sections && IsEligible(x))
  {
    var e := Eligible(sections);
    var plan := Plan(|e|, seed);
    EligibleMembers(sections);
    PlanInRange(|e|, seed);
    PickedFrom(e, plan);
    if e != [] {
      PlanShape(|e|, seed);
      assert e[0] in sections && IsEligible(e[0]);
    }
  }

  /** The `k`-th selected section is the eligible one at `plan[k]`. */
  lemma SelectionPicks(sections: seq<Section>, seed: nat)
    ensures var e := Eligible(sections);
      var plan := Plan(|e|, seed);
      var sel := Selection(sections, seed);
      && |sel| == |plan|
      && forall k :: 0 <= k < |sel| ==> plan[k] < |e| && sel[k] == e[plan[k]]
  {
    PlanInRange(|Eligible(sections)|, seed);
  }

  /** Everything picked comes from the list picked from. */
  lemma PickedFrom(e: seq<Section>, idx: seq<nat>)
    requires forall k :: 0 <= k < |idx| ==> idx[k] < |e|
    ensures forall x :: x in Pick(e, idx) ==> x in e
  {
    var r := Pick(e, idx);
    forall x | x in r
      ensures x in e
    {
      var k :| 0 <= k < |r| && r[k] == x;
      assert e[idx[k]] == x;
    }
  }

  /** What `processArticle` relies on: the smart selection is a handful of
      eligible sections, and empty only when no section is eligible. */
  lemma SmartSelectionProperties(sections: seq<Section>, filePath: string)
    ensures var sel := SmartSelection(sections, filePath);
      && (sel == [] <==> forall x :: x in sections ==> !IsEligible(x))
      && |sel| <= 5
      && (forall x :: x in sel ==> x in sections && IsEligible(x))
  {
    var seed := Hashing.Hash(SeedKey(filePath, |Eligible(sections)|));
    SelectionProperties(sections, seed);
    if Eligible(sections) == [] {
      assert Plan(0, seed) == [];
    }
  }

  /** The worked example: ten eligible sections give two picks, four apart,
      never the first or the last, whatever the file path hashes to. */
  lemma TenEligibleSections(seed: nat)
    ensures var p := Plan(10, seed);
      |p| == 2 && 1 <= p[0] <= 4 && p[1] == p[0] + 4 && p[1] <= 8
  {
    PlanShape(10, seed);
    assert TargetCount(10) == 2 && Interval(10) == 4;
  }

  lemma TargetCountTable()
    ensures TargetCount(1) == 1 && TargetCount(5) == 1
    ensures TargetCount(6) == 2 && TargetCount(11) == 2
    ensures TargetCount(12) == 3 && TargetCount(19) == 3
    ensures TargetCount(20) == 4 && TargetCount(26) == 4
    ensures TargetCount(27) == 5 && TargetCount(30) == 5
  {
  }

  /** Picking distributes over a first index and the rest. */
  lemma PickCons(e: seq<Section>, i: nat, rest: seq<nat>)
    requires i < |e| && forall k :: 0 <= k < |rest| ==> rest[k] < |e|
    ensures Pick(e, [i] + rest) == [e[i]] + Pick(e, rest)
  {
    var idx := [i] + rest;
    assert forall k :: 0 < k < |idx| ==> idx[k] == rest[k - 1];
  }

  /** The `for` loop of `chooseSmartParagraphSections`: from `startIndex`,
      every `interval`-th eligible section below `limit`, stopping once
      `targetCount` have been collected. */
  method WalkEligible(eligible: seq<Section>, startIndex: nat, limit: nat, interval: nat, targetCount: nat)
    returns (selected: seq<Section>)
    requires limit <= |eligible| && interval >= 1 && targetCount >= 1
    ensures selected == Pick(eligible, Walk(startIndex, limit, interval, targetCount))
  {
    ghost var goal := Pick(eligible, Walk(startIndex, limit, interval, targetCount));
    selected := [];
    var idx := startIndex;
    while idx < limit
      invariant |selected| < targetCount
      invariant goal == selected + Pick(eligible, Walk(idx, limit, interval, targetCount - |selected|))
      decreases limit - idx
    {
      ghost var rest := Walk(idx + interval, limit, interval, targetCount - |selected| - 1);
      assert Walk(idx, limit, interval, targetCount - |selected|) == [idx] + rest;
      PickCons(eligible, idx, rest);
      assert goal == (selected + [eligible[idx]]) + Pick(eligible, rest);
      selected := selected + [eligible[idx]];
      if |selected| >= targetCount {
        break;
      }
      idx := idx + interval;
    }
  }

  /** `chooseSmartParagraphSections(sections, filePath)`. */
  method ChooseSmartParagraphSections(sections: seq<Section>, filePath: string)
    returns (selected: seq<Section>)
    ensures selected == SmartSelection(sections, filePath)
  {
    var eligible := Eligible(sections);
    var count := |eligible|;
    if count == 0 {
      return [];
    }
    var targetCount := TargetCount(count);
    var skipEdges := SkipEdges(count);
    var interval := Interval(count);
    var seed := Hashing.StableHash(SeedKey(filePath, count));
    var offset := seed % interval;
    var fallback := eligible[Min(skipEdges, count - 1)];

    var startIndex := skipEdges + offset;
    if startIndex >= count - skipEdges {
      startIndex := skipEdges;
    }
    assert startIndex == StartIndex(count, seed);
    selected := WalkEligible(eligible, startIndex, count - skipEdges, interval, targetCount);
    if |selected| == 0 {
      selected := [fallback];
    }
    assert selected == Pick(eligible, Plan(count, seed));
    assert selected == Selection(sections, seed);
  }
}

/**
 * The isotope-cluster detector: a pass over the m/z-ordered peaks of one spectrum that groups
 * peaks spaced by the C13 mass difference over a charge into isotope clusters, annotating every
 * peak it places in a cluster, in place.
 *
 * The peaks are an array of records; a cluster names its peaks by their positions in that array.
 * The spectrum's tolerance-aware lookup "the peak at this distance from that peak" is a parameter
 * (PeakLookup), as are the tolerance's minimal m/z difference and the C13 spacing.
 */
module IsotopePatterns {
  import opened Wrappers

  /** The two annotations the detector sets: member of an isotope cluster, and monoisotopic peak. */
  datatype Annotation = Isotope | MonoIsotopic

  /** A spectrum peak: m/z, intensity, the annotations set so far and the charge set so far. */
  datatype Peak = Peak(mz: real, intensity: real, annotations: set<Annotation>, charge: int)

  /**
   * An isotope cluster: its member peaks in ascending m/z, its monoisotopic peak, its charge, its
   * representative m/z and whether it was extended backwards from its anchor.
   */
  datatype Cluster = Cluster(members: seq<nat>, mono: nat, charge: int, mz: real, extended: bool)

  /**
   * The spectrum's getPeakAtDistance(peak, distance): the position of the peak found at `distance`
   * m/z from the peak at `anchor`, if any. No peak is found farther away than `reach` (the m/z
   * span of the spectrum plus the tolerance).
   */
  datatype PeakLookup = PeakLookup(find: (nat, real) -> Option<nat>, reach: real)

  ghost predicate Bounded(lk: PeakLookup) {
    && lk.reach >= 0.0
    && forall a: nat, d: real :: lk.find(a, d).Some? ==> -lk.reach <= d <= lk.reach
  }

  /** The lookup only ever returns positions of the `n` peaks of the spectrum. */
  ghost predicate InRange(lk: PeakLookup, n: nat) {
    forall a: nat, d: real :: lk.find(a, d).Some? ==> lk.find(a, d).value < n
  }

  ghost predicate WellFormed(lk: PeakLookup, n: nat) {
    Bounded(lk) && InRange(lk, n)
  }

  /**
   * What the detector needs besides the peaks: the lookup, the tolerance's minDiff, the C13 mass
   * difference and the largest intensity ratio of first isotope peak to anchor.
   */
  datatype Detector = Detector(lookup: PeakLookup, minDiff: (real, real) -> real, c13: real, ratio: real)

  ghost predicate Usable(d: Detector, n: nat) {
    WellFormed(d.lookup, n) && d.c13 > 0.0
  }

  function Abs(x: real): real {
    if x < 0.0 then -x else x
  }

  /** (int) of a double: truncation toward zero. */
  function Trunc(x: real): (r: int)
    ensures Abs(r as real) <= Abs(x) < Abs(r as real) + 1.0
    ensures (x >= 0.0 ==> r >= 0) && (x <= 0.0 ==> r <= 0)
  {
    if x >= 0.0 then x.Floor else -((-x).Floor)
  }

  function Min(a: int, b: int): int {
    if a <= b then a else b
  }

  /** An upper bound on the multiples of `step` the lookup can still find a peak at. */
  function Steps(reach: real, step: real): nat
    requires reach >= 0.0 && step != 0.0
  {
    (reach / Abs(step)).Floor + 1
  }

  lemma StepBound(k: nat, step: real, reach: real)
    requires reach >= 0.0 && step != 0.0
    requires -reach <= (k as real) * step <= reach
    ensures k < Steps(reach, step)
  {
    var s := Abs(step);
    assert (k as real) * s <= reach;
    assert (k as real) <= reach / s;
  }

  /**
   * The peaks the lookup finds at k·step, (k+1)·step, … from `anchor`, up to the first distance
   * at which it finds none.
   */
  function Run(lk: PeakLookup, anchor: nat, step: real, k: nat): (r: seq<nat>)
    requires Bounded(lk) && step != 0.0
    decreases Steps(lk.reach, step) - k
  {
    match lk.find(anchor, (k as real) * step)
    case None => []
    case Some(p) =>
      StepBound(k, step, lk.reach);
      [p] + Run(lk, anchor, step, k + 1)
  }

  lemma {:induction false} RunInRange(lk: PeakLookup, n: nat, anchor: nat, step: real, k: nat)
    requires WellFormed(lk, n) && step != 0.0
    ensures forall j | 0 <= j < |Run(lk, anchor, step, k)| :: Run(lk, anchor, step, k)[j] < n
    decreases Steps(lk.reach, step) - k
  {
    match lk.find(anchor, (k as real) * step)
    case None =>
    case Some(p) =>
      StepBound(k, step, lk.reach);
      RunInRange(lk, n, anchor, step, k + 1);
  }

  function Reverse(s: seq<nat>): (r: seq<nat>)
    ensures |r| == |s| && forall j | 0 <= j < |s| :: r[j] == s[|s| - 1 - j]
  {
    if s == [] then [] else [s[|s| - 1]] + Reverse(s[..|s| - 1])
  }

  /**
   * The intensity gate `found / anchor < ratio` in double arithmetic: over a zero anchor
   * the quotient is infinite (below every ratio only when negative) or not a number.
   */
  predicate RatioBelow(found: real, anchor: real, ratio: real) {
    if anchor == 0.0 then found < 0.0 else found / anchor < ratio
  }

  // ---- the reference effect of clusters on the peaks ----

  /** What cluster `c` does to the peak at position `j`. */
  function Marked(p: Peak, j: nat, c: Cluster): Peak {
    if j !in c.members then p
    else if j == c.mono then p.(annotations := p.annotations + {Isotope} + {MonoIsotopic}, charge := c.charge)
    else p.(annotations := p.annotations + {Isotope}, charge := c.charge)
  }

  /** Every member of `c` becomes an isotope peak of its charge; its monoisotopic peak is marked so. */
  function MarkCluster(pk: seq<Peak>, c: Cluster): (r: seq<Peak>)
    ensures |r| == |pk| && forall j | 0 <= j < |pk| :: r[j] == Marked(pk[j], j, c)
  {
    seq(|pk|, j requires 0 <= j < |pk| => Marked(pk[j], j, c))
  }

  /** The clusters applied to the peaks in the order they were found. */
  function Apply(pk: seq<Peak>, cs: seq<Cluster>): (r: seq<Peak>)
    ensures |r| == |pk|
  {
    if cs == [] then pk else MarkCluster(Apply(pk, cs[..|cs| - 1]), cs[|cs| - 1])
  }

  lemma {:induction false} ApplyAppend(pk: seq<Peak>, a: seq<Cluster>, b: seq<Cluster>)
    ensures Apply(pk, a + b) == Apply(Apply(pk, a), b)
  {
    if b == [] {
      assert a + b == a;
    } else {
      assert (a + b)[..|a + b| - 1] == a + b[..|b| - 1];
      ApplyAppend(pk, a, b[..|b| - 1]);
    }
  }

  /** The last of the clusters `j` is a member of. */
  function LastOwner(cs: seq<Cluster>, j: nat): (r: Option<nat>)
    ensures r.Some? ==> r.value < |cs| && j in cs[r.value].members
    ensures r.Some? ==> forall k | r.value < k < |cs| :: j !in cs[k].members
    ensures r.None? ==> forall k | 0 <= k < |cs| :: j !in cs[k].members
  {
    if cs == [] then None
    else if j in cs[|cs| - 1].members then Some(|cs| - 1)
    else LastOwner(cs[..|cs| - 1], j)
  }

  /** Clusters never move a peak or change its intensity. */
  lemma {:induction false} ApplyKeepsPeak(pk: seq<Peak>, cs: seq<Cluster>, j: nat)
    requires j < |pk|
    ensures Apply(pk, cs)[j].mz == pk[j].mz && Apply(pk, cs)[j].intensity == pk[j].intensity
  {
    if cs != [] {
      ApplyKeepsPeak(pk, cs[..|cs| - 1], j);
    }
  }

  /** A peak is an isotope afterwards exactly when it was one or belongs to one of the clusters. */
  lemma {:induction false} ApplyIsotope(pk: seq<Peak>, cs: seq<Cluster>, j: nat)
    requires j < |pk|
    ensures Isotope in Apply(pk, cs)[j].annotations <==>
      Isotope in pk[j].annotations || exists k | 0 <= k < |cs| :: j in cs[k].members
  {
    if cs != [] {
      var init := cs[..|cs| - 1];
      ApplyIsotope(pk, init, j);
      if exists k | 0 <= k < |init| :: j in init[k].members {
        var k :| 0 <= k < |init| && j in init[k].members;
        assert j in cs[k].members;
      }
      if exists k | 0 <= k < |cs| :: j in cs[k].members {
        var k :| 0 <= k < |cs| && j in cs[k].members;
        if k < |init| {
          assert j in init[k].members;
        }
      }
    }
  }

  /**
   * A peak is monoisotopic afterwards exactly when it was one or is the monoisotopic peak of one
   * of the clusters it belongs to.
   */
  lemma {:induction false} ApplyMono(pk: seq<Peak>, cs: seq<Cluster>, j: nat)
    requires j < |pk|
    ensures MonoIsotopic in Apply(pk, cs)[j].annotations <==>
      MonoIsotopic in pk[j].annotations || exists k | 0 <= k < |cs| :: j in cs[k].members && cs[k].mono == j
  {
    if cs != [] {
      var init := cs[..|cs| - 1];
      ApplyMono(pk, init, j);
      if exists k | 0 <= k < |init| :: j in init[k].members && init[k].mono == j {
        var k :| 0 <= k < |init| && j in init[k].members && init[k].mono == j;
        assert j in cs[k].members && cs[k].mono == j;
      }
      if exists k | 0 <= k < |cs| :: j in cs[k].members && cs[k].mono == j {
        var k :| 0 <= k < |cs| && j in cs[k].members && cs[k].mono == j;
        if k < |init| {
          assert j in init[k].members && init[k].mono == j;
        }
      }
    }
  }

  /** A peak's charge afterwards is that of the last cluster it belongs to; outside all of them it stays. */
  lemma {:induction false} ApplyCharge(pk: seq<Peak>, cs: seq<Cluster>, j: nat)
    requires j < |pk|
    ensures Apply(pk, cs)[j].charge == match LastOwner(cs, j) case None => pk[j].charge case Some(k) => cs[k].charge
  {
    if cs != [] {
      ApplyCharge(pk, cs[..|cs| - 1], j);
    }
  }

  // ---- the detector as the code runs it ----

  /** Marks one peak found by a lookup: an isotope of charge `charge`. */
  function MarkIsotope(pk: seq<Peak>, j: nat, charge: int): (r: seq<Peak>)
    requires j < |pk|
    ensures |r| == |pk|
  {
    pk[j := pk[j].(annotations := pk[j].annotations + {Isotope}, charge := charge)]
  }

  /** Marks the peaks `js` one after another. */
  function MarkAll(pk: seq<Peak>, js: seq<nat>, charge: int): (r: seq<Peak>)
    requires forall k | 0 <= k < |js| :: js[k] < |pk|
    ensures |r| == |pk|
  {
    if js == [] then pk else MarkIsotope(MarkAll(pk, js[..|js| - 1], charge), js[|js| - 1], charge)
  }

  /** The forward extension's marks: the peaks found, then the anchor, isotope and monoisotopic. */
  function MarkForward(pk: seq<Peak>, anchor: nat, fwd: seq<nat>, charge: int): (r: seq<Peak>)
    requires anchor < |pk| && forall k | 0 <= k < |fwd| :: fwd[k] < |pk|
    ensures |r| == |pk|
  {
    var p1 := MarkAll(pk, fwd, charge);
    p1[anchor := p1[anchor].(charge := charge, annotations := p1[anchor].annotations + {Isotope} + {MonoIsotopic})]
  }

  /** The backward extension's marks: the peaks found, then the farthest of them monoisotopic. */
  function MarkBackward(pk: seq<Peak>, back: seq<nat>, charge: int): (r: seq<Peak>)
    requires back != [] && forall k | 0 <= k < |back| :: back[k] < |pk|
    ensures |r| == |pk|
  {
    var p3 := MarkAll(pk, back, charge);
    var m := back[|back| - 1];
    p3[m := p3[m].(charge := charge, annotations := p3[m].annotations + {MonoIsotopic})]
  }

  /** The state of the spectrum the detector changes: its peaks and its cluster collection. */
  datatype Snapshot = Snapshot(peaks: seq<Peak>, clusters: seq<Cluster>)

  /** The first cluster's spacing for a charge: the C13 mass difference over the charge. */
  function Spacing(d: Detector, charge: int): real
    requires d.c13 > 0.0 && charge >= 1
  {
    d.c13 / (charge as real)
  }

  /**
   * One charge tried on one anchor. When a peak lies one spacing above the anchor and passes
   * the intensity gate, the forward cluster is the anchor and the peaks at 1, 2, … spacings; when
   * a peak lies one spacing below, an extended copy follows with the peaks at −1, −2, … spacings
   * in front, the farthest of them its monoisotopic peak.
   */
  function TryCharge(s: Snapshot, d: Detector, anchor: nat, charge: int): (r: Snapshot)
    requires Usable(d, |s.peaks|) && anchor < |s.peaks| && charge >= 1
    ensures |r.peaks| == |s.peaks|
  {
    var lk := d.lookup;
    var diff := Spacing(d, charge);
    var pk := s.peaks;
    match lk.find(anchor, diff)
    case None => s
    case Some(f) =>
      if !RatioBelow(pk[f].intensity, pk[anchor].intensity, d.ratio) then s
      else
        var fwd := Run(lk, anchor, diff, 1);
        RunInRange(lk, |pk|, anchor, diff, 1);
        var p2 := MarkForward(pk, anchor, fwd, charge);
        var forward := Cluster([anchor] + fwd, anchor, charge, pk[anchor].mz, false);
        var back := Run(lk, anchor, -diff, 1);
        RunInRange(lk, |pk|, anchor, -diff, 1);
        if back == [] then Snapshot(p2, s.clusters + [forward])
        else
          var ext := Cluster(Reverse(back) + forward.members, back[|back| - 1], charge, pk[anchor].mz, true);
          Snapshot(MarkBackward(p2, back, charge), s.clusters + [forward, ext])
  }

  /** Charges 1 to `upTo` tried on one anchor, in increasing order. */
  function TryCharges(s: Snapshot, d: Detector, anchor: nat, upTo: int): (r: Snapshot)
    requires Usable(d, |s.peaks|) && anchor < |s.peaks|
    ensures |r.peaks| == |s.peaks|
    decreases upTo
  {
    if upTo < 1 then s
    else
      TryCharge(TryCharges(s, d, anchor, upTo - 1), d, anchor, upTo)
  }

  /**
   * The outer loop reaching peak `i`: a peak already in a cluster is skipped, and so is one whose
   * minimal m/z difference to the next peak exceeds 1.
   */
  function Visit(s: Snapshot, d: Detector, i: nat, maxCharge: int): (r: Snapshot)
    requires Usable(d, |s.peaks|) && i + 1 < |s.peaks|
    ensures |r.peaks| == |s.peaks|
  {
    if Isotope in s.peaks[i].annotations then s
    else if d.minDiff(s.peaks[i].mz, s.peaks[i + 1].mz) <= 1.0 then TryCharges(s, d, i, maxCharge)
    else s
  }

  /** A count that grows by at most `per` a step stays within `per` times the steps taken. */
  lemma BoundStep(start: int, mid: int, next: int, per: nat, steps: nat)
    requires steps >= 1 && mid <= start + per * (steps - 1) && next <= mid + per
    ensures next <= start + per * steps
  {
    assert per * steps == per * (steps - 1) + per;
  }

  /** Peaks 0 to `upTo` − 1 visited in order. */
  function Scan(s: Snapshot, d: Detector, upTo: nat, maxCharge: int): (r: Snapshot)
    requires Usable(d, |s.peaks|) && upTo < |s.peaks|
    ensures |r.peaks| == |s.peaks|
  {
    if upTo == 0 then s else Visit(Scan(s, d, upTo - 1, maxCharge), d, upTo - 1, maxCharge)
  }

  /** The whole pass: every peak but the last is a candidate anchor. */
  function Detect(s: Snapshot, d: Detector, maxCharge: int): (r: Snapshot)
    requires Usable(d, |s.peaks|)
  {
    if |s.peaks| == 0 then s else Scan(s, d, |s.peaks| - 1, maxCharge)
  }

  // ---- what the pass does, in terms of the clusters it finds ----

  /** The peaks as the marking by lookups leaves them: each peak of `js` an isotope of `charge`. */
  lemma {:induction false} MarkAllAt(pk: seq<Peak>, js: seq<nat>, charge: int, j: nat)
    requires forall k | 0 <= k < |js| :: js[k] < |pk|
    requires j < |pk|
    ensures MarkAll(pk, js, charge)[j] ==
      if j in js then pk[j].(annotations := pk[j].annotations + {Isotope}, charge := charge) else pk[j]
  {
    if js != [] {
      var init := js[..|js| - 1];
      MarkAllAt(pk, init, charge, j);
      assert js == init + [js[|js| - 1]];
    }
  }

  lemma MarkForwardAt(pk: seq<Peak>, anchor: nat, fwd: seq<nat>, charge: int, j: nat)
    requires anchor < |pk| && forall k | 0 <= k < |fwd| :: fwd[k] < |pk|
    requires j < |pk|
    ensures MarkForward(pk, anchor, fwd, charge)[j] ==
      if j == anchor then pk[j].(annotations := pk[j].annotations + {Isotope} + {MonoIsotopic}, charge := charge)
      else if j in fwd then pk[j].(annotations := pk[j].annotations + {Isotope}, charge := charge)
      else pk[j]
  {
    MarkAllAt(pk, fwd, charge, j);
  }

  lemma MarkBackwardAt(pk: seq<Peak>, back: seq<nat>, charge: int, j: nat)
    requires back != [] && forall k | 0 <= k < |back| :: back[k] < |pk|
    requires j < |pk|
    ensures MarkBackward(pk, back, charge)[j] ==
      if j == back[|back| - 1] then pk[j].(annotations := pk[j].annotations + {Isotope} + {MonoIsotopic}, charge := charge)
      else if j in back then pk[j].(annotations := pk[j].annotations + {Isotope}, charge := charge)
      else pk[j]
  {
    MarkAllAt(pk, back, charge, j);
  }

  /** Marking the forward run and then the anchor is what the forward cluster does to the peaks. */
  lemma ForwardMarking(pk: seq<Peak>, anchor: nat, fwd: seq<nat>, charge: int, mz: real)
    requires anchor < |pk| && forall k | 0 <= k < |fwd| :: fwd[k] < |pk|
    ensures MarkForward(pk, anchor, fwd, charge) == MarkCluster(pk, Cluster([anchor] + fwd, anchor, charge, mz, false))
  {
    var p2 := MarkForward(pk, anchor, fwd, charge);
    var c := Cluster([anchor] + fwd, anchor, charge, mz, false);
    forall j | 0 <= j < |pk|
      ensures p2[j] == Marked(pk[j], j, c)
    {
      MarkForwardAt(pk, anchor, fwd, charge, j);
      assert j in c.members <==> j == anchor || j in fwd;
    }
  }

  lemma AddPresent(a: set<Annotation>, x: Annotation)
    requires x in a
    ensures a + {x} == a
  {
    assert forall y :: y in a + {x} <==> y in a;
  }

  lemma ReverseHas(back: seq<nat>, j: nat)
    ensures j in Reverse(back) <==> j in back
  {
    var rb := Reverse(back);
    if j in back {
      var k :| 0 <= k < |back| && back[k] == j;
      assert rb[|back| - 1 - k] == j;
    }
    if j in rb {
      var k :| 0 <= k < |rb| && rb[k] == j;
      assert back[|back| - 1 - k] == j;
    }
  }

  lemma BackwardMarkingAt(p2: seq<Peak>, back: seq<nat>, rest: seq<nat>, charge: int, mz: real, j: nat)
    requires back != [] && forall k | 0 <= k < |back| :: back[k] < |p2|
    requires j < |p2| && (j in rest ==> Isotope in p2[j].annotations && p2[j].charge == charge)
    ensures MarkBackward(p2, back, charge)[j] == Marked(p2[j], j, Cluster(Reverse(back) + rest, back[|back| - 1], charge, mz, true))
  {
    var c := Cluster(Reverse(back) + rest, back[|back| - 1], charge, mz, true);
    MarkBackwardAt(p2, back, charge, j);
    ReverseHas(back, j);
    var inBack := j in back;
    var inMembers := j in c.members;
    assert inMembers <==> inBack || j in rest;
    if j == c.mono {
      assert inBack;
    } else if inBack {
      assert inMembers;
    } else if j in rest {
      assert inMembers;
      var q := p2[j];
      AddPresent(q.annotations, Isotope);
      assert q.(annotations := q.annotations + {Isotope}, charge := charge) == q;
    } else {
      assert !inMembers;
    }
  }

  /**
   * Marking the backward run and then its farthest peak is what the extended cluster does to
   * peaks the forward cluster has already marked.
   */
  lemma BackwardMarking(p2: seq<Peak>, back: seq<nat>, rest: seq<nat>, charge: int, mz: real)
    requires back != [] && forall k | 0 <= k < |back| :: back[k] < |p2|
    requires forall k | 0 <= k < |rest| :: rest[k] < |p2| && Isotope in p2[rest[k]].annotations && p2[rest[k]].charge == charge
    ensures MarkBackward(p2, back, charge) == MarkCluster(p2, Cluster(Reverse(back) + rest, back[|back| - 1], charge, mz, true))
  {
    forall j | 0 <= j < |p2|
      ensures MarkBackward(p2, back, charge)[j] == Marked(p2[j], j, Cluster(Reverse(back) + rest, back[|back| - 1], charge, mz, true))
    {
      if j in rest {
        var k :| 0 <= k < |rest| && rest[k] == j;
      }
      BackwardMarkingAt(p2, back, rest, charge, mz, j);
    }
  }

  /** `r` is `s` with clusters added at the end, and its peaks are what those clusters make of `s`'s. */
  ghost predicate Explained(s: Snapshot, r: Snapshot) {
    && |s.clusters| <= |r.clusters| && r.clusters[..|s.clusters|] == s.clusters
    && r.peaks == Apply(s.peaks, r.clusters[|s.clusters|..])
  }

  lemma ExplainedTrans(s: Snapshot, t: Snapshot, r: Snapshot)
    requires Explained(s, t) && Explained(t, r)
    ensures Explained(s, r)
  {
    var a := t.clusters[|s.clusters|..];
    var b := r.clusters[|t.clusters|..];
    assert r.clusters[..|s.clusters|] == t.clusters[..|s.clusters|];
    assert r.clusters[|s.clusters|..] == a + b;
    ApplyAppend(s.peaks, a, b);
  }

  /** Same positions, m/z and intensities: only annotations and charges may differ. */
  ghost predicate SamePeaks(p: seq<Peak>, q: seq<Peak>) {
    |p| == |q| && forall j | 0 <= j < |p| :: p[j].mz == q[j].mz && p[j].intensity == q[j].intensity
  }

  lemma ExplainedSamePeaks(s: Snapshot, r: Snapshot)
    requires Explained(s, r)
    ensures SamePeaks(s.peaks, r.peaks)
  {
    forall j | 0 <= j < |s.peaks|
      ensures r.peaks[j].mz == s.peaks[j].mz && r.peaks[j].intensity == s.peaks[j].intensity
    {
      ApplyKeepsPeak(s.peaks, r.clusters[|s.clusters|..], j);
    }
  }

  /**
   * `c` is a cluster the detector builds from `anchor`: the anchor and the peaks the lookup finds
   * at 1, 2, … spacings, the first of which passed the intensity gate, with the anchor's m/z;
   * either not extended with the anchor as its monoisotopic peak, or extended with the peaks at
   * −1, −2, … spacings in front, the farthest of them monoisotopic.
   */
  ghost predicate FromAnchor(c: Cluster, pk: seq<Peak>, d: Detector, anchor: nat) {
    && c.charge >= 1 && Usable(d, |pk|) && anchor < |pk|
    && var fwd := Run(d.lookup, anchor, Spacing(d, c.charge), 1);
       var back := Run(d.lookup, anchor, -Spacing(d, c.charge), 1);
       && fwd != [] && fwd[0] < |pk| && RatioBelow(pk[fwd[0]].intensity, pk[anchor].intensity, d.ratio)
       && c.mz == pk[anchor].mz
       && (!c.extended ==> c.members == [anchor] + fwd && c.mono == anchor)
       && (c.extended ==> back != [] && c.members == Reverse(back) + ([anchor] + fwd) && c.mono == back[|back| - 1])
  }

  lemma FromAnchorSamePeaks(c: Cluster, p: seq<Peak>, q: seq<Peak>, d: Detector, anchor: nat)
    requires SamePeaks(p, q) && FromAnchor(c, p, d, anchor)
    ensures FromAnchor(c, q, d, anchor)
  {
  }

  /** Facts every cluster `FromAnchor` has: its positions exist, it starts at its monoisotopic peak. */
  lemma FromAnchorShape(c: Cluster, pk: seq<Peak>, d: Detector, anchor: nat)
    requires FromAnchor(c, pk, d, anchor)
    ensures |c.members| >= 2 && c.members[0] == c.mono && anchor in c.members
    ensures forall k | 0 <= k < |c.members| :: c.members[k] < |pk|
  {
    var sp := Spacing(d, c.charge);
    RunInRange(d.lookup, |pk|, anchor, sp, 1);
    RunInRange(d.lookup, |pk|, anchor, -sp, 1);
    MembersShape(c, anchor, Run(d.lookup, anchor, sp, 1), Run(d.lookup, anchor, -sp, 1), |pk|);
  }

  /** The same facts for the members laid out from known forward and backward runs. */
  lemma MembersShape(c: Cluster, anchor: nat, fwd: seq<nat>, back: seq<nat>, n: nat)
    requires anchor < n && fwd != []
    requires (forall k | 0 <= k < |fwd| :: fwd[k] < n) && (forall k | 0 <= k < |back| :: back[k] < n)
    requires !c.extended ==> c.members == [anchor] + fwd && c.mono == anchor
    requires c.extended ==> back != [] && c.members == Reverse(back) + ([anchor] + fwd) && c.mono == back[|back| - 1]
    ensures |c.members| >= 2 && c.members[0] == c.mono && anchor in c.members
    ensures forall k | 0 <= k < |c.members| :: c.members[k] < n
  {
    var rest := [anchor] + fwd;
    if c.extended {
      var rb := Reverse(back);
      assert c.members[|back|] == anchor;
      assert rb[0] == back[|back| - 1];
      forall k | 0 <= k < |c.members|
        ensures c.members[k] < n
      {
        if k < |rb| {
          assert c.members[k] == rb[k] == back[|back| - 1 - k];
        } else {
          assert c.members[k] == rest[k - |rb|];
        }
      }
    } else {
      forall k | 0 <= k < |c.members|
        ensures c.members[k] < n
      {
        assert k == 0 || c.members[k] == fwd[k - 1];
      }
    }
  }

  /** One charge tried: at most two clusters, both of that charge and built from the anchor. */
  lemma TryChargeFinds(s: Snapshot, d: Detector, anchor: nat, charge: int)
    requires Usable(d, |s.peaks|) && anchor < |s.peaks| && charge >= 1
    ensures var r := TryCharge(s, d, anchor, charge);
      && Explained(s, r) && |r.clusters| <= |s.clusters| + 2
      && forall k | |s.clusters| <= k < |r.clusters| ::
           r.clusters[k].charge == charge && FromAnchor(r.clusters[k], s.peaks, d, anchor)
  {
    var pk := s.peaks;
    var found := d.lookup.find(anchor, Spacing(d, charge));
    if found.Some? && RatioBelow(pk[found.value].intensity, pk[anchor].intensity, d.ratio) {
      TryChargeGated(s, d, anchor, charge);
    } else {
      var r := TryCharge(s, d, anchor, charge);
      assert r == s;
      assert r.clusters[|s.clusters|..] == [];
    }
  }

  /** The case where a first isotope peak was found and passed the intensity gate. */
  lemma TryChargeGated(s: Snapshot, d: Detector, anchor: nat, charge: int)
    requires Usable(d, |s.peaks|) && anchor < |s.peaks| && charge >= 1
    requires var found := d.lookup.find(anchor, Spacing(d, charge));
      found.Some? && RatioBelow(s.peaks[found.value].intensity, s.peaks[anchor].intensity, d.ratio)
    ensures var r := TryCharge(s, d, anchor, charge);
      && Explained(s, r) && |r.clusters| <= |s.clusters| + 2
      && forall k | |s.clusters| <= k < |r.clusters| ::
           r.clusters[k].charge == charge && FromAnchor(r.clusters[k], s.peaks, d, anchor)
  {
    GatedClusters(s, d, anchor, charge);
    GatedMarks(s, d, anchor, charge);
  }

  lemma GatedClusters(s: Snapshot, d: Detector, anchor: nat, charge: int)
    requires Usable(d, |s.peaks|) && anchor < |s.peaks| && charge >= 1
    requires var found := d.lookup.find(anchor, Spacing(d, charge));
      found.Some? && RatioBelow(s.peaks[found.value].intensity, s.peaks[anchor].intensity, d.ratio)
    ensures var r := TryCharge(s, d, anchor, charge);
      && |s.clusters| < |r.clusters| <= |s.clusters| + 2 && r.clusters[..|s.clusters|] == s.clusters
      && forall k | |s.clusters| <= k < |r.clusters| ::
           r.clusters[k].charge == charge && FromAnchor(r.clusters[k], s.peaks, d, anchor)
  {
    var r := TryCharge(s, d, anchor, charge);
    var lk := d.lookup;
    var diff := Spacing(d, charge);
    var pk := s.peaks;
    var fwd := Run(lk, anchor, diff, 1);
    RunInRange(lk, |pk|, anchor, diff, 1);
    assert (1 as real) * diff == diff;
    assert fwd != [] && fwd[0] == lk.find(anchor, diff).value;
    var forward := Cluster([anchor] + fwd, anchor, charge, pk[anchor].mz, false);
    assert FromAnchor(forward, pk, d, anchor);
    var back := Run(lk, anchor, -diff, 1);
    if back == [] {
      assert r.clusters == s.clusters + [forward];
    } else {
      var ext := Cluster(Reverse(back) + ([anchor] + fwd), back[|back| - 1], charge, pk[anchor].mz, true);
      assert r.clusters == s.clusters + [forward, ext];
      assert FromAnchor(ext, pk, d, anchor);
    }
  }

  lemma GatedMarks(s: Snapshot, d: Detector, anchor: nat, charge: int)
    requires Usable(d, |s.peaks|) && anchor < |s.peaks| && charge >= 1
    requires var found := d.lookup.find(anchor, Spacing(d, charge));
      found.Some? && RatioBelow(s.peaks[found.value].intensity, s.peaks[anchor].intensity, d.ratio)
    ensures Explained(s, TryCharge(s, d, anchor, charge))
  {
    var r := TryCharge(s, d, anchor, charge);
    var lk := d.lookup;
    var diff := Spacing(d, charge);
    var pk := s.peaks;
    var fwd := Run(lk, anchor, diff, 1);
    RunInRange(lk, |pk|, anchor, diff, 1);
    RunInRange(lk, |pk|, anchor, -diff, 1);
    var forward := Cluster([anchor] + fwd, anchor, charge, pk[anchor].mz, false);
    var pf := MarkForward(pk, anchor, fwd, charge);
    ForwardMarking(pk, anchor, fwd, charge, pk[anchor].mz);
    assert pf == Apply(pk, [forward]) by {
      assert [forward][..0] == [];
    }
    var back := Run(lk, anchor, -diff, 1);
    if back == [] {
      assert r == Snapshot(pf, s.clusters + [forward]);
      assert r.clusters[|s.clusters|..] == [forward];
    } else {
      var rest := [anchor] + fwd;
      var ext := Cluster(Reverse(back) + rest, back[|back| - 1], charge, pk[anchor].mz, true);
      var pb := MarkBackward(pf, back, charge);
      assert r == Snapshot(pb, s.clusters + [forward, ext]);
      forall k | 0 <= k < |rest|
        ensures rest[k] < |pf| && Isotope in pf[rest[k]].annotations && pf[rest[k]].charge == charge
      {
        assert rest[k] in forward.members;
        assert pf[rest[k]] == Marked(pk[rest[k]], rest[k], forward);
      }
      BackwardMarking(pf, back, rest, charge, pk[anchor].mz);
      assert r.clusters[|s.clusters|..] == [forward] + [ext];
      assert pb == Apply(pf, [ext]) by {
        assert [ext][..0] == [];
      }
      ApplyAppend(pk, [forward], [ext]);
    }
  }

  function Max0(n: int): nat {
    if n < 0 then 0 else n
  }

  /** Charges 1 to `upTo` tried: at most two clusters each, every one of a charge tried, all from the anchor. */
  lemma {:induction false} TryChargesFind(s: Snapshot, d: Detector, anchor: nat, upTo: int)
    requires Usable(d, |s.peaks|) && anchor < |s.peaks|
    ensures var r := TryCharges(s, d, anchor, upTo);
      && Explained(s, r) && |r.clusters| <= |s.clusters| + 2 * Max0(upTo)
      && forall k | |s.clusters| <= k < |r.clusters| ::
           1 <= r.clusters[k].charge <= upTo && FromAnchor(r.clusters[k], s.peaks, d, anchor)
    decreases upTo
  {
    var r := TryCharges(s, d, anchor, upTo);
    if upTo < 1 {
      assert r.clusters[|s.clusters|..] == [];
    } else {
      var t := TryCharges(s, d, anchor, upTo - 1);
      TryChargesFind(s, d, anchor, upTo - 1);
      TryChargeFinds(t, d, anchor, upTo);
      ExplainedTrans(s, t, r);
      ExplainedSamePeaks(s, t);
      forall k | |t.clusters| <= k < |r.clusters|
        ensures FromAnchor(r.clusters[k], s.peaks, d, anchor)
      {
        FromAnchorSamePeaks(r.clusters[k], t.peaks, s.peaks, d, anchor);
      }
      forall k | |s.clusters| <= k < |t.clusters|
        ensures r.clusters[k] == t.clusters[k]
      {
        assert r.clusters[..|t.clusters|][k] == t.clusters[k];
      }
    }
  }

  /**
   * `anchor` may have started cluster `c`: it is not the last peak, it was not an isotope peak
   * before the pass, its minimal m/z difference to the next peak is at most 1, and `c` is built
   * from it.
   */
  ghost predicate Anchored(c: Cluster, pk: seq<Peak>, d: Detector, anchor: nat) {
    && anchor + 1 < |pk| && Isotope !in pk[anchor].annotations
    && d.minDiff(pk[anchor].mz, pk[anchor + 1].mz) <= 1.0
    && FromAnchor(c, pk, d, anchor)
  }

  /** What holds of `c` at a later point of the pass held of it at its start. */
  lemma AnchoredBefore(s: Snapshot, t: Snapshot, c: Cluster, d: Detector, anchor: nat)
    requires Explained(s, t) && Anchored(c, t.peaks, d, anchor)
    ensures Anchored(c, s.peaks, d, anchor)
  {
    ExplainedSamePeaks(s, t);
    ApplyIsotope(s.peaks, t.clusters[|s.clusters|..], anchor);
    FromAnchorSamePeaks(c, t.peaks, s.peaks, d, anchor);
  }

  /** One peak visited: at most two clusters per charge, all anchored at that peak. */
  lemma VisitFinds(s: Snapshot, d: Detector, i: nat, maxCharge: int)
    requires Usable(d, |s.peaks|) && i + 1 < |s.peaks|
    ensures var r := Visit(s, d, i, maxCharge);
      && Explained(s, r) && |r.clusters| <= |s.clusters| + 2 * Max0(maxCharge)
      && forall k | |s.clusters| <= k < |r.clusters| ::
           1 <= r.clusters[k].charge <= maxCharge && Anchored(r.clusters[k], s.peaks, d, i)
  {
    var r := Visit(s, d, i, maxCharge);
    if r == s {
      assert r.clusters[|s.clusters|..] == [];
    } else {
      TryChargesFind(s, d, i, maxCharge);
    }
  }

  /**
   * What visiting peaks 0 to `upTo` − 1 from `s` to `r` amounts to: `r` only adds clusters to `s`,
   * at most two per charge tried and anchor, each with a charge tried and an anchor among them.
   */
  ghost predicate FoundBefore(s: Snapshot, r: Snapshot, d: Detector, upTo: nat, maxCharge: int) {
    && Explained(s, r) && |r.clusters| <= |s.clusters| + 2 * Max0(maxCharge) * upTo
    && forall k | |s.clusters| <= k < |r.clusters| ::
         1 <= r.clusters[k].charge <= maxCharge && AnchoredBelow(r.clusters[k], s.peaks, d, upTo)
  }

  /** `c` is built from one of the anchors 0 to `upTo` − 1. */
  ghost predicate AnchoredBelow(c: Cluster, pk: seq<Peak>, d: Detector, upTo: nat) {
    exists a: nat | a < upTo :: Anchored(c, pk, d, a)
  }

  /** Peaks 0 to `upTo` − 1 visited: every new cluster has a charge tried and an anchor among them. */
  lemma {:induction false} ScanFinds(s: Snapshot, d: Detector, upTo: nat, maxCharge: int)
    requires Usable(d, |s.peaks|) && upTo < |s.peaks|
    ensures FoundBefore(s, Scan(s, d, upTo, maxCharge), d, upTo, maxCharge)
  {
    if upTo == 0 {
      assert s.clusters[|s.clusters|..] == [];
      assert s.clusters[..|s.clusters|] == s.clusters;
    } else {
      var t := Scan(s, d, upTo - 1, maxCharge);
      ScanFinds(s, d, upTo - 1, maxCharge);
      VisitFinds(t, d, upTo - 1, maxCharge);
      VisitStep(s, t, Visit(t, d, upTo - 1, maxCharge), d, upTo - 1, maxCharge);
    }
  }

  /** Visiting peak `n` after peaks 0 to `n` − 1 is visiting peaks 0 to `n`. */
  lemma VisitStep(s: Snapshot, t: Snapshot, r: Snapshot, d: Detector, n: nat, maxCharge: int)
    requires FoundBefore(s, t, d, n, maxCharge)
    requires Explained(t, r) && |r.clusters| <= |t.clusters| + 2 * Max0(maxCharge)
    requires forall k | |t.clusters| <= k < |r.clusters| ::
      1 <= r.clusters[k].charge <= maxCharge && Anchored(r.clusters[k], t.peaks, d, n)
    ensures FoundBefore(s, r, d, n + 1, maxCharge)
  {
    ExplainedTrans(s, t, r);
    BoundStep(|s.clusters|, |t.clusters|, |r.clusters|, 2 * Max0(maxCharge), n + 1);
    AnchorsStep(s, t, r, d, n, maxCharge);
  }

  /**
   * Clusters anchored before peak `n` at the start, followed by clusters anchored at `n` in the
   * middle snapshot, are all anchored before `n` + 1 at the start.
   */
  lemma AnchorsStep(s: Snapshot, t: Snapshot, r: Snapshot, d: Detector, n: nat, maxCharge: int)
    requires FoundBefore(s, t, d, n, maxCharge) && Explained(t, r)
    requires forall k | |t.clusters| <= k < |r.clusters| ::
      1 <= r.clusters[k].charge <= maxCharge && Anchored(r.clusters[k], t.peaks, d, n)
    ensures forall k | |s.clusters| <= k < |r.clusters| ::
      1 <= r.clusters[k].charge <= maxCharge && AnchoredBelow(r.clusters[k], s.peaks, d, n + 1)
  {
    forall k | |s.clusters| <= k < |r.clusters|
      ensures 1 <= r.clusters[k].charge <= maxCharge && AnchoredBelow(r.clusters[k], s.peaks, d, n + 1)
    {
      if k < |t.clusters| {
        assert r.clusters[k] == r.clusters[..|t.clusters|][k] == t.clusters[k];
        assert AnchoredBelow(t.clusters[k], s.peaks, d, n);
        var a: nat :| a < n && Anchored(t.clusters[k], s.peaks, d, a);
        assert a < n + 1 && Anchored(r.clusters[k], s.peaks, d, a);
      } else {
        AnchoredBefore(s, t, r.clusters[k], d, n);
        assert n < n + 1 && Anchored(r.clusters[k], s.peaks, d, n);
      }
    }
  }

  /**
   * The whole pass: it only adds clusters, at most two per charge tried and anchor; every new
   * cluster has a charge from 1 to `maxCharge` and is built from an anchor that is not the last
   * peak, was not an isotope peak before the pass and lies within 1 m/z of the next peak; and the
   * peaks end up exactly as the new clusters, applied in order, make them.
   */
  lemma DetectFinds(s: Snapshot, d: Detector, maxCharge: int)
    requires Usable(d, |s.peaks|)
    ensures var r := Detect(s, d, maxCharge);
      && Explained(s, r) && |r.clusters| <= |s.clusters| + 2 * Max0(maxCharge) * Max0(|s.peaks| - 1)
      && forall k | |s.clusters| <= k < |r.clusters| ::
           1 <= r.clusters[k].charge <= maxCharge && exists a: nat :: Anchored(r.clusters[k], s.peaks, d, a)
  {
    if |s.peaks| == 0 {
      assert Detect(s, d, maxCharge).clusters[|s.clusters|..] == [];
    } else {
      ScanFinds(s, d, |s.peaks| - 1, maxCharge);
    }
  }

  /** Without a charge to try (a precursor charge below 1, say) the pass changes nothing. */
  lemma DetectWithoutCharges(s: Snapshot, d: Detector, maxCharge: int)
    requires Usable(d, |s.peaks|) && maxCharge < 1
    ensures Detect(s, d, maxCharge) == s
  {
    DetectFinds(s, d, maxCharge);
    var r := Detect(s, d, maxCharge);
    assert r.clusters[..|s.clusters|] == r.clusters;
    assert r.clusters[|s.clusters|..] == [];
  }

  /**
   * Each new cluster afterwards: at least the anchor and one more peak, all of them peaks of the
   * spectrum and annotated isotope, led by its monoisotopic peak, which is annotated monoisotopic.
   */
  lemma DetectedClusterShape(s: Snapshot, d: Detector, maxCharge: int, k: nat)
    requires Usable(d, |s.peaks|)
    requires |s.clusters| <= k < |Detect(s, d, maxCharge).clusters|
    ensures var r := Detect(s, d, maxCharge); var c := r.clusters[k];
      && |c.members| >= 2 && c.members[0] == c.mono
      && (forall m | 0 <= m < |c.members| :: c.members[m] < |r.peaks| && Isotope in r.peaks[c.members[m]].annotations)
      && MonoIsotopic in r.peaks[c.mono].annotations
  {
    var r := Detect(s, d, maxCharge);
    DetectFinds(s, d, maxCharge);
    var c := r.clusters[k];
    var a :| Anchored(c, s.peaks, d, a);
    FromAnchorShape(c, s.peaks, d, a);
    var added := r.clusters[|s.clusters|..];
    assert added[k - |s.clusters|] == c;
    forall m | 0 <= m < |c.members|
      ensures c.members[m] < |r.peaks| && Isotope in r.peaks[c.members[m]].annotations
    {
      ApplyIsotope(s.peaks, added, c.members[m]);
    }
    ApplyMono(s.peaks, added, c.mono);
  }

  /**
   * Each peak afterwards: same m/z and intensity; an isotope peak exactly when it was one or is in
   * a new cluster; monoisotopic exactly when it was or is a new cluster's monoisotopic peak; its
   * charge that of the last new cluster holding it, or unchanged when none does.
   */
  lemma DetectedPeak(s: Snapshot, d: Detector, maxCharge: int, j: nat)
    requires Usable(d, |s.peaks|) && j < |s.peaks|
    ensures var r := Detect(s, d, maxCharge);
      && |s.clusters| <= |r.clusters| && r.clusters[..|s.clusters|] == s.clusters
      && var added := r.clusters[|s.clusters|..];
      && r.peaks[j].mz == s.peaks[j].mz && r.peaks[j].intensity == s.peaks[j].intensity
      && (Isotope in r.peaks[j].annotations <==>
           Isotope in s.peaks[j].annotations || exists k | 0 <= k < |added| :: j in added[k].members)
      && (MonoIsotopic in r.peaks[j].annotations <==>
           MonoIsotopic in s.peaks[j].annotations || exists k | 0 <= k < |added| :: j in added[k].members && added[k].mono == j)
      && r.peaks[j].charge == match LastOwner(added, j) case None => s.peaks[j].charge case Some(k) => added[k].charge
  {
    var r := Detect(s, d, maxCharge);
    DetectFinds(s, d, maxCharge);
    var added := r.clusters[|s.clusters|..];
    ApplyKeepsPeak(s.peaks, added, j);
    ApplyIsotope(s.peaks, added, j);
    ApplyMono(s.peaks, added, j);
    ApplyCharge(s.peaks, added, j);
  }

  // ---- the spectrum and the annotator ----

  /** The part of a spectrum the detector uses: its peaks, its isotope clusters and its precursor charge. */
  class Spectra {
    const peaks: array<Peak>
    var isotopeClusters: seq<Cluster>
    const precursorCharge: real
    /** getPeakAtDistance, under the spectrum's tolerance. */
    const lookup: PeakLookup
    /** The tolerance's minDiff(a, b). */
    const minDiff: (real, real) -> real

    ghost predicate Valid()
      reads this
    {
      WellFormed(lookup, peaks.Length)
    }

    constructor(peaks: array<Peak>, precursorCharge: real, lookup: PeakLookup, minDiff: (real, real) -> real)
      requires WellFormed(lookup, peaks.Length)
      ensures Valid()
      ensures this.peaks == peaks && this.precursorCharge == precursorCharge
      ensures this.lookup == lookup && this.minDiff == minDiff && isotopeClusters == []
    {
      this.peaks := peaks;
      this.precursorCharge := precursorCharge;
      this.lookup := lookup;
      this.minDiff := minDiff;
      isotopeClusters := [];
    }

    function State(): Snapshot
      reads this, peaks
    {
      Snapshot(peaks[..], isotopeClusters)
    }
  }

  /** Double.MAX_VALUE. */
  const MaxDouble: real := 1.7976931348623157e308

  class IsotopPattern {
    /** Util.C13_MASS_DIFFERENCE, the isotope spacing at charge 1. */
    const c13: real
    var maxMono2FirstPeakRatio: real
    var maxPeakToPeakRation: real

    ghost predicate Valid()
      reads this
    {
      c13 > 0.0
    }

    /** The defaults: a first isotope peak must be less than 8 times the anchor's intensity; no peak-to-peak bound. */
    constructor(c13: real)
      requires c13 > 0.0
      ensures Valid() && this.c13 == c13
      ensures maxMono2FirstPeakRatio == 8.0 && maxPeakToPeakRation == MaxDouble
    {
      this.c13 := c13;
      maxMono2FirstPeakRatio := 8.0;
      maxPeakToPeakRation := MaxDouble;
    }

    function GetMaxMono2FirstPeakRatio(): real
      reads this
    {
      maxMono2FirstPeakRatio
    }

    method SetMaxMono2FirstPeakRatio(ratio: real)
      modifies this`maxMono2FirstPeakRatio
      ensures maxMono2FirstPeakRatio == ratio
    {
      maxMono2FirstPeakRatio := ratio;
    }

    function GetMaxPeakToPeakRation(): real
      reads this
    {
      maxPeakToPeakRation
    }

    method SetMaxPeakToPeakRation(ratio: real)
      modifies this`maxPeakToPeakRation
      ensures maxPeakToPeakRation == ratio
    {
      maxPeakToPeakRation := ratio;
    }

    /** The detector this annotator runs on `spectra`. */
    function DetectorFor(spectra: Spectra): Detector
      reads this, spectra
    {
      Detector(spectra.lookup, spectra.minDiff, c13, maxMono2FirstPeakRatio)
    }

    /**
     * The forward extension: from the first isotope peak `first`, found one spacing above the
     * anchor, adds each peak found at the next multiple of the spacing and marks it an isotope
     * of `charge`, until the lookup finds none; returns the anchor and the peaks added.
     */
    static method ExtendForward(spectra: Spectra, anchor: nat, diff: real, charge: int, first: nat) returns (spc: seq<nat>)
      requires spectra.Valid() && anchor < spectra.peaks.Length && diff != 0.0
      requires spectra.lookup.find(anchor, (1 as real) * diff) == Some(first)
      modifies spectra.peaks
      ensures spc == [anchor] + Run(spectra.lookup, anchor, diff, 1)
      ensures forall m | 0 <= m < |Run(spectra.lookup, anchor, diff, 1)| :: Run(spectra.lookup, anchor, diff, 1)[m] < spectra.peaks.Length
      ensures spectra.peaks[..] == MarkAll(old(spectra.peaks[..]), Run(spectra.lookup, anchor, diff, 1), charge)
    {
      var peaks := spectra.peaks;
      var lk := spectra.lookup;
      ghost var p0 := peaks[..];
      var sp: Option<nat> := Some(first);
      spc := [anchor];
      ghost var found: seq<nat> := [];
      var k: nat := 1;
      ghost var whole := Run(lk, anchor, diff, 1);
      while sp.Some?
        invariant sp == lk.find(anchor, (k as real) * diff)
        invariant spc == [anchor] + found
        invariant forall m | 0 <= m < |found| :: found[m] < peaks.Length
        invariant found + Run(lk, anchor, diff, k) == whole
        invariant peaks[..] == MarkAll(p0, found, charge)
        decreases Steps(lk.reach, diff) - k
      {
        var p := sp.value;
        RunNext(lk, peaks.Length, anchor, diff, k, p);
        FoundStep(found, p, Run(lk, anchor, diff, k + 1));
        peaks[p] := peaks[p].(annotations := peaks[p].annotations + {Isotope}, charge := charge);
        spc := spc + [p];
        found := found + [p];
        k := k + 1;
        sp := lk.find(anchor, (k as real) * diff);
      }
      RunEnd(lk, anchor, diff, k);
      assert found + [] == found;
    }

    static method ExtendBackward(spectra: Spectra, anchor: nat, step: real, charge: int, first: nat, spc: seq<nat>)
      returns (ext: seq<nat>, cMono: nat)
      requires spectra.Valid() && anchor < spectra.peaks.Length && step != 0.0
      requires spectra.lookup.find(anchor, (1 as real) * step) == Some(first)
      modifies spectra.peaks
      ensures Run(spectra.lookup, anchor, step, 1) != []
      ensures cMono == Run(spectra.lookup, anchor, step, 1)[|Run(spectra.lookup, anchor, step, 1)| - 1]
      ensures ext == Reverse(Run(spectra.lookup, anchor, step, 1)) + spc
      ensures forall m | 0 <= m < |Run(spectra.lookup, anchor, step, 1)| ::
        Run(spectra.lookup, anchor, step, 1)[m] < spectra.peaks.Length
      ensures spectra.peaks[..] == MarkAll(old(spectra.peaks[..]), Run(spectra.lookup, anchor, step, 1), charge)
    {
      var peaks := spectra.peaks;
      var lk := spectra.lookup;
      ghost var p0 := peaks[..];
      var sp: Option<nat> := Some(first);
      ext := spc;
      cMono := anchor;
      ghost var back: seq<nat> := [];
      var k: nat := 1;
      RunNext(lk, peaks.Length, anchor, step, 1, first);
      ghost var whole := Run(lk, anchor, step, 1);
      while sp.Some?
        invariant sp == lk.find(anchor, (k as real) * step)
        invariant k >= 1 && |back| == k - 1
        invariant back + Run(lk, anchor, step, k) == whole
        invariant BackwardSoFar(peaks[..], p0, back, ext, spc, cMono, charge)
        decreases Steps(lk.reach, step) - k
      {
        var p := sp.value;
        RunNext(lk, peaks.Length, anchor, step, k, p);
        FoundStep(back, p, Run(lk, anchor, step, k + 1));
        BackwardStep(peaks[..], p0, back, ext, spc, cMono, charge, p);
        ext := [p] + ext;
        peaks[p] := peaks[p].(annotations := peaks[p].annotations + {Isotope}, charge := charge);
        cMono := p;
        back := back + [p];
        k := k + 1;
        sp := lk.find(anchor, (k as real) * step);
      }
      RunEnd(lk, anchor, step, k);
      assert back + [] == back;
      assert back == whole;
    }

    /**
     * The forward half of one charge: extends from the first isotope peak and then marks the
     * anchor an isotope and monoisotopic peak of `charge`.
     */
    static method MarkForwardCluster(spectra: Spectra, i: nat, diff: real, charge: int, first: nat)
      returns (spc: seq<nat>)
      requires spectra.Valid() && i < spectra.peaks.Length && diff != 0.0
      requires spectra.lookup.find(i, diff) == Some(first)
      modifies spectra.peaks
      ensures spc == [i] + Run(spectra.lookup, i, diff, 1)
      ensures forall m | 0 <= m < |Run(spectra.lookup, i, diff, 1)| :: Run(spectra.lookup, i, diff, 1)[m] < spectra.peaks.Length
      ensures spectra.peaks[..] == MarkForward(old(spectra.peaks[..]), i, Run(spectra.lookup, i, diff, 1), charge)
    {
      var peaks := spectra.peaks;
      assert (1 as real) * diff == diff;
      spc := ExtendForward(spectra, i, diff, charge, first);
      peaks[i] := peaks[i].(charge := charge, annotations := peaks[i].annotations + {Isotope} + {MonoIsotopic});
    }

    /**
     * The backward half of one charge: when a peak lies one spacing below the anchor, extends
     * downwards, marks the farthest peak found monoisotopic and adds the extended cluster;
     * otherwise changes nothing.
     */
    static method AddBackwardCluster(spectra: Spectra, i: nat, diff: real, charge: int, spc: seq<nat>, pMZ: real)
      requires spectra.Valid() && i < spectra.peaks.Length && diff != 0.0
      modifies spectra.peaks, spectra`isotopeClusters
      ensures var back := Run(spectra.lookup, i, -diff, 1);
        && (forall m | 0 <= m < |back| :: back[m] < spectra.peaks.Length)
        && (back == [] ==> spectra.State() == old(spectra.State()))
        && (back != [] ==>
              && spectra.peaks[..] == MarkBackward(old(spectra.peaks[..]), back, charge)
              && spectra.isotopeClusters ==
                 old(spectra.isotopeClusters) + [Cluster(Reverse(back) + spc, back[|back| - 1], charge, pMZ, true)])
    {
      var peaks := spectra.peaks;
      var prev := -diff;
      var sp := spectra.lookup.find(i, prev);
      assert (1 as real) * prev == prev;
      RunInRange(spectra.lookup, peaks.Length, i, prev, 1);
      if sp.Some? {
        var ext, cMono := ExtendBackward(spectra, i, prev, charge, sp.value, spc);
        peaks[cMono] := peaks[cMono].(charge := charge, annotations := peaks[cMono].annotations + {MonoIsotopic});
        spectra.isotopeClusters := spectra.isotopeClusters + [Cluster(ext, cMono, charge, pMZ, true)];
      } else {
        RunEnd(spectra.lookup, i, prev, 1);
      }
    }

    /** One charge of AnnotateIsotops' charge loop, on the anchor at position `i`. */
    method TryOneCharge(spectra: Spectra, i: nat, charge: int)
      requires Valid() && spectra.Valid() && i < spectra.peaks.Length && charge >= 1
      modifies spectra.peaks, spectra`isotopeClusters
      ensures spectra.State() == TryCharge(old(spectra.State()), DetectorFor(spectra), i, charge)
    {
      var peaks := spectra.peaks;
      var diff := c13 / (charge as real);
      var sp := spectra.lookup.find(i, diff);
      if sp.Some? && RatioBelow(peaks[sp.value].intensity, peaks[i].intensity, maxMono2FirstPeakRatio) {
        AddClusters(spectra, DetectorFor(spectra), i, diff, charge, sp.value);
      }
    }

    /**
     * The part of one charge after the intensity gate: the forward cluster, marked and added, then
     * the backward extension when there is one.
     */
    static method AddClusters(spectra: Spectra, ghost d: Detector, i: nat, diff: real, charge: int, first: nat)
      requires spectra.Valid() && i < spectra.peaks.Length && charge >= 1
      requires d.lookup == spectra.lookup && d.c13 > 0.0
      requires diff == Spacing(d, charge) && spectra.lookup.find(i, diff) == Some(first)
      requires RatioBelow(spectra.peaks[first].intensity, spectra.peaks[i].intensity, d.ratio)
      modifies spectra.peaks, spectra`isotopeClusters
      ensures spectra.State() == TryCharge(old(spectra.State()), d, i, charge)
    {
      var pMZ := spectra.peaks[i].mz;
      var spc := MarkForwardCluster(spectra, i, diff, charge, first);
      var forward := Cluster(spc, i, charge, pMZ, false);
      spectra.isotopeClusters := spectra.isotopeClusters + [forward];
      AddBackwardCluster(spectra, i, diff, charge, spc, pMZ);
    }

    /**
     * AnnotateIsotops(spectra, MaxCharge): tries every peak but the last as the anchor of a
     * cluster, for the charges 1 to min(MaxCharge, (int) precursor charge), annotating in place
     * and adding the clusters to the spectrum's collection.
     */
    method AnnotateIsotops(spectra: Spectra, maxCharge: int)
      requires Valid() && spectra.Valid()
      modifies spectra.peaks, spectra`isotopeClusters
      ensures spectra.State() ==
        Detect(old(spectra.State()), DetectorFor(spectra), Min(maxCharge, Trunc(spectra.precursorCharge)))
    {
      var maxZ := Min(maxCharge, Trunc(spectra.precursorCharge));
      var peaks := spectra.peaks;
      var peakCount := peaks.Length;
      ghost var s0 := spectra.State();
      ghost var d := DetectorFor(spectra);
      var i := 0;
      while i < peakCount - 1
        invariant 0 <= i && (peakCount > 0 ==> i <= peakCount - 1) && (peakCount == 0 ==> i == 0)
        invariant spectra.State() == (if peakCount == 0 then s0 else Scan(s0, d, i, maxZ))
      {
        ghost var si := spectra.State();
        if Isotope !in peaks[i].annotations && spectra.minDiff(peaks[i].mz, peaks[i + 1].mz) <= 1.0 {
          var charge := 1;
          while charge <= maxZ
            invariant 1 <= charge && (if maxZ >= 1 then charge <= maxZ + 1 else charge == 1)
            invariant spectra.State() == TryCharges(si, d, i, charge - 1)
          {
            TryOneCharge(spectra, i, charge);
            charge := charge + 1;
          }
          assert spectra.State() == TryCharges(si, d, i, maxZ);
        }
        i := i + 1;
      }
    }

    /** anotate(s): AnnotateIsotops with the precursor charge as the largest charge. */
    method Anotate(spectra: Spectra)
      requires Valid() && spectra.Valid()
      modifies spectra.peaks, spectra`isotopeClusters
      ensures spectra.State() == Detect(old(spectra.State()), DetectorFor(spectra), Trunc(spectra.precursorCharge))
    {
      AnnotateIsotops(spectra, Trunc(spectra.precursorCharge));
    }
  }

  /** A peak found at the k-th multiple is the head of the run from there. */
  lemma RunNext(lk: PeakLookup, n: nat, anchor: nat, step: real, k: nat, p: nat)
    requires WellFormed(lk, n) && step != 0.0
    requires lk.find(anchor, (k as real) * step) == Some(p)
    ensures p < n && k < Steps(lk.reach, step)
    ensures Run(lk, anchor, step, k) == [p] + Run(lk, anchor, step, k + 1)
  {
    StepBound(k, step, lk.reach);
  }

  /** A run ends at the first distance where the lookup finds nothing. */
  lemma RunEnd(lk: PeakLookup, anchor: nat, step: real, k: nat)
    requires Bounded(lk) && step != 0.0 && lk.find(anchor, (k as real) * step).None?
    ensures Run(lk, anchor, step, k) == []
  {
  }

  /** One more peak found: the found prefix grows and the marks follow it. */
  lemma FoundStep(found: seq<nat>, p: nat, rest: seq<nat>)
    ensures found + ([p] + rest) == (found + [p]) + rest
    ensures (found + [p])[..|found|] == found && (found + [p])[|found|] == p
  {
  }

  lemma ReverseSnoc(s: seq<nat>, p: nat)
    ensures Reverse(s + [p]) == [p] + Reverse(s)
  {
    assert (s + [p])[..|s|] == s;
  }

  /** One more peak found below the anchor goes in front of the cluster's members. */
  lemma PrependStep(back: seq<nat>, p: nat, spc: seq<nat>)
    ensures Reverse(back + [p]) + spc == [p] + (Reverse(back) + spc)
  {
    ReverseSnoc(back, p);
  }

  /**
   * The backward extension so far: the peaks found below the anchor exist, lead the cluster in
   * reverse order of finding, are marked, and the last of them is the farthest one.
   */
  ghost predicate BackwardSoFar(pk: seq<Peak>, p0: seq<Peak>, back: seq<nat>, ext: seq<nat>, spc: seq<nat>,
                               cMono: nat, charge: int) {
    && (forall m | 0 <= m < |back| :: back[m] < |p0|)
    && (back != [] ==> cMono == back[|back| - 1])
    && ext == Reverse(back) + spc
    && pk == MarkAll(p0, back, charge)
  }

  /** One more peak `p` found below: prepended, marked and now the farthest. */
  lemma BackwardStep(pk: seq<Peak>, p0: seq<Peak>, back: seq<nat>, ext: seq<nat>, spc: seq<nat>,
                     cMono: nat, charge: int, p: nat)
    requires BackwardSoFar(pk, p0, back, ext, spc, cMono, charge) && p < |p0|
    ensures BackwardSoFar(MarkIsotope(pk, p, charge), p0, back + [p], [p] + ext, spc, p, charge)
  {
    PrependStep(back, p, spc);
    var b := back + [p];
    assert b[..|b| - 1] == back && b[|b| - 1] == p;
  }
}

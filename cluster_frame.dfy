/** One clustered frame (the `cluster_group` object): the core/fringe split
    of the selection, one id group per cluster and the cluster count, all
    derived from the labels and core positions a density clustering returned.

    A selection is the sequence of global atom ids of the selected atoms;
    position i of `labels` belongs to the atom `selection[i]`. */
module ClusterFrame {
  import opened Masks

  /** The label a density clustering gives to an atom in no cluster. */
  const NOISE := -1

  // ---------------------------------------------------------------------------
  // Core and fringe
  // ---------------------------------------------------------------------------

  /** Position i of a selection of n atoms is a core position. */
  function CoreMask(n: nat, coreLabels: seq<int>): seq<bool> {
    MemberMask(Range(n), coreLabels)
  }

  /** `fringe_labels`: position i is a fringe position, i.e. not a core one. */
  function FringeMask(n: nat, coreLabels: seq<int>): seq<bool> {
    Not(CoreMask(n, coreLabels))
  }

  /** `core_atomids`: the ids at core positions, in selection order. */
  function CoreAtomIds(selection: seq<nat>, coreLabels: seq<int>): seq<nat> {
    Compress(selection, CoreMask(|selection|, coreLabels))
  }

  /** `fringe_atomids`: the ids at fringe positions, in selection order. */
  function FringeAtomIds(selection: seq<nat>, coreLabels: seq<int>): seq<nat> {
    Compress(selection, FringeMask(|selection|, coreLabels))
  }

  /** The positions 0..n-1 that occur in coreLabels. */
  function CorePositions(n: nat, coreLabels: seq<int>): set<int> {
    set p | p in coreLabels && 0 <= p < n
  }

  /** The fringe mask has one entry per selected atom, and entry i is true
      exactly when i is not a listed core position. */
  lemma FringeMaskExact(n: nat, coreLabels: seq<int>)
    ensures |FringeMask(n, coreLabels)| == n
    ensures forall i :: 0 <= i < n ==> (FringeMask(n, coreLabels)[i] <==> i !in coreLabels)
  {
  }

  /** Core positions out of range, repeated or listed in another order make
      no difference: only the set of in-range core positions matters. */
  lemma FringeMaskIgnoresOrderAndJunk(selection: seq<nat>, core1: seq<int>, core2: seq<int>)
    requires CorePositions(|selection|, core1) == CorePositions(|selection|, core2)
    ensures FringeMask(|selection|, core1) == FringeMask(|selection|, core2)
    ensures CoreAtomIds(selection, core1) == CoreAtomIds(selection, core2)
    ensures FringeAtomIds(selection, core1) == FringeAtomIds(selection, core2)
  {
    var n := |selection|;
    forall i | 0 <= i < n
      ensures CoreMask(n, core1)[i] == CoreMask(n, core2)[i]
    {
      assert i in core1 <==> i in CorePositions(n, core1);
      assert i in core2 <==> i in CorePositions(n, core2);
    }
    assert CoreMask(n, core1) == CoreMask(n, core2);
  }

  lemma CoreMaskLast(n: nat, coreLabels: seq<int>)
    ensures CoreMask(n + 1, coreLabels)[..n] == CoreMask(n, coreLabels)
    ensures CoreMask(n + 1, coreLabels)[n] == (n in coreLabels)
  {
  }

  /** There are as many core positions as distinct in-range core labels. */
  lemma {:induction false} CoreCount(n: nat, coreLabels: seq<int>)
    ensures CountTrue(CoreMask(n, coreLabels)) == |CorePositions(n, coreLabels)|
  {
    if n > 0 {
      CoreCount(n - 1, coreLabels);
      CoreMaskLast(n - 1, coreLabels);
      assert CorePositions(n, coreLabels) == CorePositions(n - 1, coreLabels)
          + (if n - 1 in coreLabels then {n - 1} else {});
    }
  }

  /** Core and fringe ids split the selection: together they hold every
      selected id exactly as often as the selection does, there are as many
      core ids as distinct in-range core positions and the rest are fringe. */
  lemma CoreFringePartition(selection: seq<nat>, coreLabels: seq<int>)
    ensures |CoreAtomIds(selection, coreLabels)| == |CorePositions(|selection|, coreLabels)|
    ensures |CoreAtomIds(selection, coreLabels)| + |FringeAtomIds(selection, coreLabels)| == |selection|
    ensures multiset(CoreAtomIds(selection, coreLabels)) + multiset(FringeAtomIds(selection, coreLabels))
         == multiset(selection)
  {
    var m := CoreMask(|selection|, coreLabels);
    CoreCount(|selection|, coreLabels);
    CountSplit(m);
    CompressSplit(selection, m);
  }

  /** In a selection of distinct atoms, the atom at position i is a core id
      exactly when i is a core position, and a fringe id exactly otherwise. */
  lemma CoreFringeMembership(selection: seq<nat>, coreLabels: seq<int>, i: int)
    requires NoDuplicates(selection) && 0 <= i < |selection|
    ensures selection[i] in CoreAtomIds(selection, coreLabels) <==> i in coreLabels
    ensures selection[i] in FringeAtomIds(selection, coreLabels) <==> i !in coreLabels
  {
    CompressDistinct(selection, CoreMask(|selection|, coreLabels), i);
    CompressDistinct(selection, FringeMask(|selection|, coreLabels), i);
  }

  // ---------------------------------------------------------------------------
  // Distinct labels and the cluster count
  // ---------------------------------------------------------------------------

  /** `n_clusters`: the number of distinct labels, less one when noise occurs. */
  function NClusters(labels: seq<int>): (r: nat)
    ensures r == |set c | c in labels && c != NOISE|
  {
    var all := set c | c in labels;
    var clustered := set c | c in labels && c != NOISE;
    assert all == clustered + (if NOISE in labels then {NOISE} else {});
    |all| - (if NOISE in labels then 1 else 0)
  }

  /** The distinct labels, each at its first occurrence in labels. This is
      the order in which the model visits `set(labels)`. */
  function Distinct(labels: seq<int>): (r: seq<int>)
    ensures NoDuplicates(r)
    ensures forall c :: c in r <==> c in labels
  {
    if |labels| == 0 then []
    else
      var n := |labels| - 1;
      var seen := Distinct(labels[..n]);
      assert forall c :: c in labels <==> c in labels[..n] || c == labels[n] by {
        assert labels == labels[..n] + [labels[n]];
      }
      if labels[n] in seen then seen else seen + [labels[n]]
  }

  /** Position k of labels carries a label that no earlier position carries. */
  function FirstOccurrences(labels: seq<int>): seq<bool> {
    seq(|labels|, k requires 0 <= k < |labels| => labels[k] !in labels[..k])
  }

  lemma FirstOccurrencesLast(labels: seq<int>)
    requires |labels| > 0
    ensures FirstOccurrences(labels)[..|labels| - 1] == FirstOccurrences(labels[..|labels| - 1])
  {
    var n := |labels| - 1;
    forall k | 0 <= k < n
      ensures FirstOccurrences(labels)[k] == FirstOccurrences(labels[..n])[k]
    {
      assert labels[..k] == labels[..n][..k];
    }
  }

  /** The visiting order is the order of first occurrence: the distinct labels
      are exactly the labels at the positions where each first appears, in
      the order of those positions. */
  lemma {:induction false} DistinctIsFirstOccurrenceOrder(labels: seq<int>)
    ensures Distinct(labels) == Compress(labels, FirstOccurrences(labels))
  {
    if |labels| > 0 {
      var n := |labels| - 1;
      DistinctIsFirstOccurrenceOrder(labels[..n]);
      FirstOccurrencesLast(labels);
    }
  }

  /** The labels other than NOISE, in order. */
  function RemoveNoise(s: seq<int>): (r: seq<int>)
    ensures forall c :: c in r <==> c in s && c != NOISE
  {
    if |s| == 0 then []
    else
      var n := |s| - 1;
      assert forall c :: c in s <==> c in s[..n] || c == s[n] by {
        assert s == s[..n] + [s[n]];
      }
      RemoveNoise(s[..n]) + (if s[n] != NOISE then [s[n]] else [])
  }

  lemma {:induction false} RemoveNoiseKeepsDistinct(s: seq<int>)
    requires NoDuplicates(s)
    ensures NoDuplicates(RemoveNoise(s))
  {
    if |s| > 0 {
      var n := |s| - 1;
      RemoveNoiseKeepsDistinct(s[..n]);
      assert s[n] !in s[..n];
    }
  }

  /** One entry per cluster: the distinct labels other than NOISE, in order of
      first occurrence. */
  function Clusters(labels: seq<int>): (r: seq<int>)
    ensures NoDuplicates(r)
    ensures forall c :: c in r <==> c in labels && c != NOISE
  {
    RemoveNoiseKeepsDistinct(Distinct(labels));
    RemoveNoise(Distinct(labels))
  }

  /** There is one cluster per counted cluster: `len(cluster_atomids) ==
      n_clusters`, whether or not noise occurs. */
  lemma ClusterCount(labels: seq<int>)
    ensures |Clusters(labels)| == NClusters(labels)
  {
    var cs := Clusters(labels);
    DistinctCardinality(cs);
    assert (set c | c in cs) == (set c | c in labels && c != NOISE);
  }

  // ---------------------------------------------------------------------------
  // Cluster groups
  // ---------------------------------------------------------------------------

  /** The ids of the atoms labelled c, in selection order. */
  function Members(selection: seq<nat>, labels: seq<int>, c: int): seq<nat>
    requires |labels| == |selection|
  {
    Compress(selection, EqualMask(labels, c))
  }

  /** One entry per label of cs, each a one-element list around that
      label's ids. */
  function GroupsOf(selection: seq<nat>, labels: seq<int>, cs: seq<int>): seq<seq<seq<nat>>>
    requires |labels| == |selection|
  {
    seq(|cs|, k requires 0 <= k < |cs| => [Members(selection, labels, cs[k])])
  }

  /** `cluster_atomids`: one entry per cluster, in order of first occurrence. */
  function ClusterAtomIds(selection: seq<nat>, labels: seq<int>): seq<seq<seq<nat>>>
    requires |labels| == |selection|
  {
    GroupsOf(selection, labels, Clusters(labels))
  }

  /** Builds `cluster_atomids` as the source does: visit each distinct label,
      skip NOISE, append the wrapped ids of the others. */
  method GroupByCluster(selection: seq<nat>, labels: seq<int>) returns (groups: seq<seq<seq<nat>>>)
    requires |labels| == |selection|
    ensures groups == ClusterAtomIds(selection, labels)
  {
    var distinct := Distinct(labels);
    groups := [];
    for k := 0 to |distinct|
      invariant groups == GroupsOf(selection, labels, RemoveNoise(distinct[..k]))
    {
      var clusterIndex := distinct[k];
      RemoveNoiseStep(distinct, k);
      if clusterIndex != NOISE {
        var atomIds := Members(selection, labels, clusterIndex);
        GroupsOfSnoc(selection, labels, RemoveNoise(distinct[..k]), clusterIndex);
        groups := groups + [[atomIds]];
      }
    }
    assert distinct[..|distinct|] == distinct;
  }

  lemma RemoveNoiseStep(s: seq<int>, k: nat)
    requires k < |s|
    ensures RemoveNoise(s[..k + 1]) == RemoveNoise(s[..k]) + (if s[k] != NOISE then [s[k]] else [])
  {
    assert s[..k + 1][..k] == s[..k];
  }

  lemma GroupsOfSnoc(selection: seq<nat>, labels: seq<int>, cs: seq<int>, c: int)
    requires |labels| == |selection|
    ensures GroupsOf(selection, labels, cs + [c])
         == GroupsOf(selection, labels, cs) + [[Members(selection, labels, c)]]
  {
  }

  /** Each cluster's entry is a one-element list around exactly the ids of
      the atoms carrying that cluster's label, in selection order, and there
      are exactly `n_clusters` entries. */
  lemma ClusterAtomIdsShape(selection: seq<nat>, labels: seq<int>)
    requires |labels| == |selection|
    ensures |ClusterAtomIds(selection, labels)| == NClusters(labels)
    ensures forall k :: 0 <= k < |ClusterAtomIds(selection, labels)| ==>
      |ClusterAtomIds(selection, labels)[k]| == 1 &&
      ClusterAtomIds(selection, labels)[k][0] == Compress(selection, EqualMask(labels, Clusters(labels)[k]))
  {
    ClusterCount(labels);
  }

  /** All ids of all groups, one group after the other. */
  function Flatten(groups: seq<seq<seq<nat>>>): seq<nat> {
    if |groups| == 0 then [] else Flatten(groups[..|groups| - 1]) + Concat(groups[|groups| - 1])
  }

  function Concat(parts: seq<seq<nat>>): seq<nat> {
    if |parts| == 0 then [] else Concat(parts[..|parts| - 1]) + parts[|parts| - 1]
  }

  lemma FlattenSnoc(groups: seq<seq<seq<nat>>>, ids: seq<nat>)
    ensures Flatten(groups + [[ids]]) == Flatten(groups) + ids
  {
    assert (groups + [[ids]])[..|groups|] == groups;
    assert [ids][..0] == [];
    assert Concat([ids]) == Concat([]) + ids;
  }

  lemma EqualMaskSnoc(labels: seq<int>, l: int, c: int)
    ensures EqualMask(labels + [l], c) == EqualMask(labels, c) + [l == c]
  {
  }

  lemma MembersSnoc(selection: seq<nat>, labels: seq<int>, x: nat, l: int, c: int)
    requires |labels| == |selection|
    ensures Members(selection + [x], labels + [l], c)
         == Members(selection, labels, c) + (if l == c then [x] else [])
  {
    EqualMaskSnoc(labels, l, c);
    CompressSnoc(selection, EqualMask(labels, c), x, l == c);
  }

  lemma {:induction false} MembersAbsent(selection: seq<nat>, labels: seq<int>, c: int)
    requires |labels| == |selection| && c !in labels
    ensures Members(selection, labels, c) == []
  {
    if |labels| > 0 {
      var n := |labels| - 1;
      assert labels == labels[..n] + [labels[n]];
      assert selection == selection[..n] + [selection[n]];
      MembersAbsent(selection[..n], labels[..n], c);
      MembersSnoc(selection[..n], labels[..n], selection[n], labels[n], c);
    }
  }

  /** Adding one atom labelled l adds its id to the one group of cs for label
      l, if any, and to no other group. */
  lemma {:induction false} GroupsOfAddAtom(selection: seq<nat>, labels: seq<int>, x: nat, l: int, cs: seq<int>)
    requires |labels| == |selection| && NoDuplicates(cs)
    ensures multiset(Flatten(GroupsOf(selection + [x], labels + [l], cs)))
         == multiset(Flatten(GroupsOf(selection, labels, cs))) + (if l in cs then multiset{x} else multiset{})
  {
    if |cs| > 0 {
      var n := |cs| - 1;
      var c := cs[n];
      assert cs == cs[..n] + [c];
      assert l in cs <==> l in cs[..n] || l == c;
      assert c !in cs[..n];
      GroupsOfAddAtom(selection, labels, x, l, cs[..n]);
      GroupsOfSnoc(selection, labels, cs[..n], c);
      GroupsOfSnoc(selection + [x], labels + [l], cs[..n], c);
      FlattenSnoc(GroupsOf(selection, labels, cs[..n]), Members(selection, labels, c));
      FlattenSnoc(GroupsOf(selection + [x], labels + [l], cs[..n]), Members(selection + [x], labels + [l], c));
      MembersSnoc(selection, labels, x, l, c);
    }
  }

  lemma ClustersSnoc(labels: seq<int>, l: int)
    ensures Clusters(labels + [l])
         == Clusters(labels) + (if l != NOISE && l !in labels then [l] else [])
  {
    assert (labels + [l])[..|labels|] == labels;
    var d := Distinct(labels);
    var d' := if l in d then d else d + [l];
    assert Distinct(labels + [l]) == d';
    if l !in d {
      assert d'[..|d|] == d;
    }
  }

  /** The ids of the atoms not labelled NOISE, in selection order. */
  function ClusteredIds(selection: seq<nat>, labels: seq<int>): seq<nat>
    requires |labels| == |selection|
  {
    Compress(selection, Not(EqualMask(labels, NOISE)))
  }

  lemma ClusteredIdsSnoc(selection: seq<nat>, labels: seq<int>, x: nat, l: int)
    requires |labels| == |selection|
    ensures ClusteredIds(selection + [x], labels + [l])
         == ClusteredIds(selection, labels) + (if l != NOISE then [x] else [])
  {
    EqualMaskSnoc(labels, l, NOISE);
    assert Not(EqualMask(labels + [l], NOISE)) == Not(EqualMask(labels, NOISE)) + [l != NOISE];
    CompressSnoc(selection, Not(EqualMask(labels, NOISE)), x, l != NOISE);
  }

  lemma ClusterAtomIdsSnoc(selection: seq<nat>, labels: seq<int>, x: nat, l: int)
    requires |labels| == |selection|
    ensures multiset(Flatten(ClusterAtomIds(selection + [x], labels + [l])))
         == multiset(Flatten(ClusterAtomIds(selection, labels))) + (if l != NOISE then multiset{x} else multiset{})
  {
    if l != NOISE && l !in labels {
      NewClusterSnoc(selection, labels, x, l);
    } else {
      var cs := Clusters(labels);
      ClustersSnoc(labels, l);
      assert Clusters(labels + [l]) == cs;
      GroupsOfAddAtom(selection, labels, x, l, cs);
    }
  }

  lemma NewClusterSnoc(selection: seq<nat>, labels: seq<int>, x: nat, l: int)
    requires |labels| == |selection| && l != NOISE && l !in labels
    ensures multiset(Flatten(ClusterAtomIds(selection + [x], labels + [l])))
         == multiset(Flatten(ClusterAtomIds(selection, labels))) + multiset{x}
  {
    var sel, lab := selection + [x], labels + [l];
    var cs := Clusters(labels);
    ClustersSnoc(labels, l);
    assert Clusters(lab) == cs + [l];
    GroupsOfSnoc(sel, lab, cs, l);
    FlattenSnoc(GroupsOf(sel, lab, cs), Members(sel, lab, l));
    MembersAbsent(selection, labels, l);
    MembersSnoc(selection, labels, x, l, l);
    assert Members(sel, lab, l) == [x];
    GroupsOfAddAtom(selection, labels, x, l, cs);
    assert l !in cs;
  }

  /** The groups together hold exactly the clustered ids: each id whose label
      is not NOISE occurs in the groups as often as it occurs at such a
      position, and no other id occurs, whatever the ids are. */
  lemma {:induction false} GroupsHoldClusteredIds(selection: seq<nat>, labels: seq<int>)
    requires |labels| == |selection|
    ensures multiset(Flatten(ClusterAtomIds(selection, labels))) == multiset(ClusteredIds(selection, labels))
  {
    if |labels| > 0 {
      var n := |labels| - 1;
      var sel, lab, x, l := selection[..n], labels[..n], selection[n], labels[n];
      assert selection == sel + [x];
      assert labels == lab + [l];
      GroupsHoldClusteredIds(sel, lab);
      ClusterAtomIdsSnoc(sel, lab, x, l);
      ClusteredIdsSnoc(sel, lab, x, l);
    }
  }

  /** An id is in some group exactly when some atom with that id carries a
      label other than NOISE. */
  lemma ClusterIdsUnion(selection: seq<nat>, labels: seq<int>, x: nat)
    requires |labels| == |selection|
    ensures x in Flatten(ClusterAtomIds(selection, labels))
        <==> exists i :: 0 <= i < |selection| && labels[i] != NOISE && selection[i] == x
  {
    GroupsHoldClusteredIds(selection, labels);
    assert x in Flatten(ClusterAtomIds(selection, labels)) <==> x in ClusteredIds(selection, labels) by {
      assert x in multiset(Flatten(ClusterAtomIds(selection, labels))) <==> x in multiset(ClusteredIds(selection, labels));
    }
    CompressMembership(selection, Not(EqualMask(labels, NOISE)), x);
  }

  /** Every clustered atom is in the group of its own label. */
  lemma AtomInOwnCluster(selection: seq<nat>, labels: seq<int>, i: int)
    requires |labels| == |selection| && 0 <= i < |selection| && labels[i] != NOISE
    ensures exists k :: (0 <= k < |ClusterAtomIds(selection, labels)| &&
                         Clusters(labels)[k] == labels[i] &&
                         selection[i] in ClusterAtomIds(selection, labels)[k][0])
  {
    var cs := Clusters(labels);
    assert labels[i] in cs;
    var k :| 0 <= k < |cs| && cs[k] == labels[i];
    CompressMembership(selection, EqualMask(labels, cs[k]), selection[i]);
    assert selection[i] in ClusterAtomIds(selection, labels)[k][0];
  }

  /** In a selection of distinct atoms, the atom at position i is in the k-th
      group exactly when it carries the k-th cluster's label. */
  lemma ClusterMembersExact(selection: seq<nat>, labels: seq<int>, k: int, i: int)
    requires |labels| == |selection| && NoDuplicates(selection)
    requires 0 <= k < |ClusterAtomIds(selection, labels)| && 0 <= i < |selection|
    ensures selection[i] in ClusterAtomIds(selection, labels)[k][0] <==> labels[i] == Clusters(labels)[k]
  {
    CompressDistinct(selection, EqualMask(labels, Clusters(labels)[k]), i);
  }

  /** In a selection of distinct atoms no id is in two groups. */
  lemma ClustersDisjoint(selection: seq<nat>, labels: seq<int>, k1: int, k2: int, x: nat)
    requires |labels| == |selection| && NoDuplicates(selection)
    requires 0 <= k1 < |ClusterAtomIds(selection, labels)| && 0 <= k2 < |ClusterAtomIds(selection, labels)|
    requires x in ClusterAtomIds(selection, labels)[k1][0] && x in ClusterAtomIds(selection, labels)[k2][0]
    ensures k1 == k2
  {
    var cs := Clusters(labels);
    CompressMembership(selection, EqualMask(labels, cs[k1]), x);
    var i :| 0 <= i < |selection| && EqualMask(labels, cs[k1])[i] && selection[i] == x;
    ClusterMembersExact(selection, labels, k2, i);
  }

  /** In a selection of distinct atoms no noise atom is in any group. */
  lemma NoiseInNoCluster(selection: seq<nat>, labels: seq<int>, k: int, i: int)
    requires |labels| == |selection| && NoDuplicates(selection)
    requires 0 <= k < |ClusterAtomIds(selection, labels)| && 0 <= i < |selection| && labels[i] == NOISE
    ensures selection[i] !in ClusterAtomIds(selection, labels)[k][0]
  {
    ClusterMembersExact(selection, labels, k, i);
    assert Clusters(labels)[k] in Clusters(labels);
  }

  // ---------------------------------------------------------------------------
  // The frame object
  // ---------------------------------------------------------------------------

  /** The result of clustering one frame; nothing changes it once built. */
  class ClusterGroup {
    const timeStep: real
    const labels: seq<int>
    const coreLabels: seq<int>
    const fringeLabels: seq<bool>
    const coreAtomIds: seq<nat>
    const fringeAtomIds: seq<nat>
    const clusterAtomIds: seq<seq<seq<nat>>>
    const nClusters: nat

    /** Every field is the one derived from these inputs. */
    predicate BuiltFrom(timeStep: real, labels: seq<int>, coreLabels: seq<int>, selection: seq<nat>) {
      && |labels| == |selection|
      && this.timeStep == timeStep
      && this.labels == labels
      && this.coreLabels == coreLabels
      && fringeLabels == FringeMask(|selection|, coreLabels)
      && coreAtomIds == CoreAtomIds(selection, coreLabels)
      && fringeAtomIds == FringeAtomIds(selection, coreLabels)
      && clusterAtomIds == ClusterAtomIds(selection, labels)
      && nClusters == NClusters(labels)
    }

    constructor (timeStep: real, labels: seq<int>, coreLabels: seq<int>, selection: seq<nat>)
      requires |labels| == |selection|
      ensures BuiltFrom(timeStep, labels, coreLabels, selection)
    {
      this.timeStep := timeStep;
      this.labels := labels;
      this.coreLabels := coreLabels;
      var fringe := FringeMask(|selection|, coreLabels);
      fringeLabels := fringe;
      coreAtomIds := Compress(selection, CoreMask(|selection|, coreLabels));
      fringeAtomIds := Compress(selection, fringe);
      nClusters := NClusters(labels);
      var groups := GroupByCluster(selection, labels);
      clusterAtomIds := groups;
    }
  }

  /** What a frame built from a selection holds: a fringe mask of the
      selection's length, core and fringe ids splitting the selection, and
      one wrapped group per counted cluster, the groups holding exactly the
      clustered ids. */
  lemma BuiltFrameInvariants(g: ClusterGroup, timeStep: real, labels: seq<int>, coreLabels: seq<int>, selection: seq<nat>)
    requires g.BuiltFrom(timeStep, labels, coreLabels, selection)
    ensures |g.fringeLabels| == |selection|
    ensures multiset(g.coreAtomIds) + multiset(g.fringeAtomIds) == multiset(selection)
    ensures |g.clusterAtomIds| == g.nClusters
    ensures forall k :: 0 <= k < |g.clusterAtomIds| ==> |g.clusterAtomIds[k]| == 1
    ensures multiset(Flatten(g.clusterAtomIds)) == multiset(ClusteredIds(selection, labels))
  {
    CoreFringePartition(selection, coreLabels);
    ClusterAtomIdsShape(selection, labels);
    GroupsHoldClusteredIds(selection, labels);
  }
}

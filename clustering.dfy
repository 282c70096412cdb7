/** The backend segmenter: feature extraction relative to the predecessor, the
    DBSCAN-style pass over the time-ordered records, and the building of one
    event per cluster. */
module Clustering {
  import opened Seqs
  import opened Text
  import opened Records
  import opened Metric
  import opened Tally
  import opened Store

  /** The cosine similarity of two embeddings; computed by a numerics library
      and taken here as given. */
  type Cosine = (Embedding, Embedding) -> real

  function Min(a: real, b: real): real {
    if a <= b then a else b
  }

  /** The time feature for a gap of `delta` seconds: the sentinel 10.0 when the
      gap exceeds two hours, otherwise the gap in hours capped at 1. */
  function TimeFeature(delta: int): (f: real)
    ensures f == 10.0 <==> delta > 7200
    ensures delta <= 7200 ==> f <= 1.0
    ensures 0 <= delta <= 7200 ==> 0.0 <= f
  {
    if delta > 7200 then 10.0 else Min(delta as real / 3600.0, 1.0)
  }

  /** The features of record i relative to record i - 1 (none for the first). */
  function FeatureAt(entries: seq<Entry>, i: nat, cosine: Cosine): Features
    requires i < |entries|
  {
    var e := entries[i];
    if i == 0 then Features(TimeFeature(0), 0.0, 1.0, 0.5)
    else
      var prev := entries[i - 1];
      Features(
        TimeFeature(e.timestamp - prev.timestamp),
        if e.app != prev.app then 1.0 else 0.0,
        if e.title == prev.title then 1.0 else 0.5,
        if e.embedding.Some? && prev.embedding.Some?
        then 1.0 - cosine(e.embedding.value, prev.embedding.value) else 0.5)
  }

  /** The record of `extract_features`: a capture record and its vector. */
  datatype Featured = Featured(entry: Entry, features: Features)

  /** What each component of the vector means. */
  lemma FeatureFacts(entries: seq<Entry>, i: nat, cosine: Cosine)
    requires i < |entries|
    ensures var f := FeatureAt(entries, i, cosine);
      && (i == 0 ==> f == Features(0.0, 0.0, 1.0, 0.5))
      && (f.app == 1.0 <==> i > 0 && entries[i].app != entries[i - 1].app)
      && (f.title == 1.0 <==> i == 0 || entries[i].title == entries[i - 1].title)
      && (f.title == 0.5 <==> i > 0 && entries[i].title != entries[i - 1].title)
      && (i > 0 && (entries[i].embedding.None? || entries[i - 1].embedding.None?) ==> f.embed == 0.5)
      && (SortedByTime(entries) ==> (0.0 <= f.time <= 1.0 || f.time == 10.0))
      && (f.time == 10.0 <==> i > 0 && entries[i].timestamp - entries[i - 1].timestamp > 7200)
  {
  }

  /** `extract_features`: one record per entry, in input order. */
  method ExtractFeatures(entries: seq<Entry>, cosine: Cosine) returns (featureData: seq<Featured>)
    ensures |featureData| == |entries|
    ensures forall i :: 0 <= i < |entries| ==>
      featureData[i] == Featured(entries[i], FeatureAt(entries, i, cosine))
  {
    featureData := [];
    var i := 0;
    while i < |entries|
      invariant 0 <= i <= |entries| && |featureData| == i
      invariant forall k :: 0 <= k < i ==> featureData[k] == Featured(entries[k], FeatureAt(entries, k, cosine))
    {
      featureData := featureData + [Featured(entries[i], FeatureAt(entries, i, cosine))];
      i := i + 1;
    }
  }

  function Vectors(featureData: seq<Featured>): (fs: seq<Features>)
    ensures |fs| == |featureData|
    ensures forall i :: 0 <= i < |fs| ==> fs[i] == featureData[i].features
  {
    seq(|featureData|, i requires 0 <= i < |featureData| => featureData[i].features)
  }

  /** The `for c in clusters: if entry in c` scan. */
  method InAnyCluster(clusters: seq<seq<Entry>>, x: Entry) returns (b: bool)
    ensures b == (x in Members(clusters))
  {
    b := false;
    var p := 0;
    while p < |clusters|
      invariant 0 <= p <= |clusters|
      invariant forall q :: 0 <= q < p ==> x !in clusters[q]
    {
      if x in clusters[p] {
        b := true;
        break;
      }
      p := p + 1;
    }
    MembersAt(clusters, x);
  }

  /** `for nn in extra: if nn not in neighbors: neighbors.append(nn)`. */
  method AppendAbsent(neighbors: seq<nat>, extra: seq<nat>) returns (r: seq<nat>)
    ensures |neighbors| <= |r| && r[..|neighbors|] == neighbors
    ensures forall x :: x in r <==> x in neighbors || x in extra
    ensures Distinct(neighbors) ==> Distinct(r)
  {
    r := neighbors;
    var t := 0;
    while t < |extra|
      invariant 0 <= t <= |extra|
      invariant |neighbors| <= |r| && r[..|neighbors|] == neighbors
      invariant forall x :: x in r <==> x in neighbors || x in extra[..t]
      invariant Distinct(neighbors) ==> Distinct(r)
    {
      assert extra[..t + 1] == extra[..t] + [extra[t]];
      if extra[t] !in r {
        r := r + [extra[t]];
      }
      t := t + 1;
    }
    assert extra[..t] == extra;
  }

  /** Every core point among V has its whole eps-neighbourhood inside M. */
  ghost predicate CoreClosed(fs: seq<Features>, entries: seq<Entry>, eps: real, minSamples: int, V: set<nat>, M: set<Entry>)
    requires |fs| == |entries|
  {
    forall m, j :: m in V && m < |fs| && 0 <= j < |fs| && IsCore(fs, eps, minSamples, m) && Near(fs[m], fs[j], eps)
      ==> entries[j] in M
  }

  /** While a cluster grows, the neighbourhood of each visited core point is
      already placed or still waiting in the neighbour list. */
  ghost predicate ClosedOrPending(fs: seq<Features>, entries: seq<Entry>, eps: real, minSamples: int,
                                  V: set<nat>, clusters: seq<seq<Entry>>, cluster: seq<Entry>, nbs: seq<nat>)
    requires |fs| == |entries|
  {
    forall m, j :: m in V && m < |fs| && 0 <= j < |fs| && IsCore(fs, eps, minSamples, m) && Near(fs[m], fs[j], eps) ==>
      entries[j] in Members(clusters) || entries[j] in cluster || j in nbs
  }

  /** Point k lies within eps of a core point whose record is in the cluster. */
  ghost predicate NearCoreMember(entries: seq<Entry>, fs: seq<Features>, eps: real, minSamples: int,
                                 cluster: seq<Entry>, k: nat)
    requires |entries| == |fs| && k < |fs|
  {
    exists m :: 0 <= m < |fs| && entries[m] in cluster && IsCore(fs, eps, minSamples, m) && Near(fs[m], fs[k], eps)
  }

  /** Every member of the cluster is a core point or lies within eps of a core
      member of the same cluster. */
  ghost predicate Anchored(entries: seq<Entry>, fs: seq<Features>, eps: real, minSamples: int, cluster: seq<Entry>)
    requires |entries| == |fs|
  {
    forall k :: 0 <= k < |fs| && entries[k] in cluster ==>
      IsCore(fs, eps, minSamples, k) || NearCoreMember(entries, fs, eps, minSamples, cluster, k)
  }

  /** `expand_cluster`: start a cluster at the core point `index` and grow it
      through the neighbour list, which itself grows by the neighbourhoods of
      the core points met on the way. */
  method ExpandCluster(entries: seq<Entry>, fs: seq<Features>, eps: real, minSamples: int,
                       index: nat, neighbors: seq<nat>, clusters: seq<seq<Entry>>, visited0: set<nat>)
    returns (cluster: seq<Entry>, visited: set<nat>)
    requires |entries| == |fs| && Distinct(entries)
    requires index < |fs| && index in visited0
    requires neighbors == Region(fs, eps, index) && |neighbors| >= minSamples
    requires forall v :: v in visited0 ==> v < |fs|
    requires Members(clusters) <= Elements(entries)
    requires forall k :: 0 <= k < |fs| && entries[k] in Members(clusters) ==> k in visited0 && k != index
    requires CoreClosed(fs, entries, eps, minSamples, visited0 - {index}, Members(clusters))
    ensures |cluster| > 0 && cluster[0] == entries[index] && Distinct(cluster)
    ensures forall t :: 0 <= t < |cluster| ==> cluster[t] in entries && cluster[t] !in Members(clusters)
    ensures forall k :: 0 <= k < |fs| && entries[k] in cluster ==> k in visited && Clusterable(fs, eps, minSamples, k)
    ensures visited0 <= visited && forall v :: v in visited ==> v < |fs|
    ensures forall v :: v in visited && v !in visited0 ==> Reachable(fs, eps, minSamples, v)
    ensures forall v :: v in visited && v !in visited0 ==> entries[v] in Members(clusters) || entries[v] in cluster
    ensures forall v :: v in visited && v !in visited0 ==> NearCoreMember(entries, fs, eps, minSamples, cluster, v)
    ensures CoreClosed(fs, entries, eps, minSamples, visited, Members(clusters) + Elements(cluster))
    ensures Anchored(entries, fs, eps, minSamples, cluster)
  {
    hide InnerInv, NearCoreMember, Anchored, CoreClosed, Reachable, Clusterable;
    var n := |fs|;
    cluster := [entries[index]];
    visited := visited0;
    var nbs := neighbors;
    var k := 0;
    ExpandStart(entries, fs, eps, minSamples, index, neighbors, clusters, visited0);
    while k < |nbs|
      invariant InnerInv(entries, fs, eps, minSamples, index, neighbors, clusters, visited0, k, nbs, visited, cluster)
      decreases n - k
    {
      InnerShape(entries, fs, eps, minSamples, index, neighbors, clusters, visited0, k, nbs, visited, cluster);
      var j := nbs[k];
      var nbs1, visited1 := nbs, visited;
      if j !in visited {
        visited1 := visited + {j};
        var nn := RegionQuery(fs, eps, j);
        if |nn| >= minSamples {
          nbs1 := AppendAbsent(nbs, nn);
        }
      }
      var inAny := InAnyCluster(clusters, entries[j]);
      if entries[j] in cluster {
        inAny := true;
      }
      var cluster1 := cluster;
      if !inAny {
        cluster1 := cluster + [entries[j]];
      }
      InnerStep(entries, fs, eps, minSamples, index, neighbors, clusters, visited0,
                k, nbs, visited, cluster, nbs1, visited1, cluster1);
      nbs, visited, cluster := nbs1, visited1, cluster1;
      k := k + 1;
    }
    InnerShape(entries, fs, eps, minSamples, index, neighbors, clusters, visited0, k, nbs, visited, cluster);
    ExpandEnd(entries, fs, eps, minSamples, index, neighbors, clusters, visited0, nbs, visited, cluster);
  }

  /** The state of the loop inside `expand_cluster` before position k of the
      neighbour list is looked at. */
  ghost predicate InnerInv(entries: seq<Entry>, fs: seq<Features>, eps: real, minSamples: int,
                           index: nat, neighbors: seq<nat>, clusters: seq<seq<Entry>>, visited0: set<nat>,
                           k: nat, nbs: seq<nat>, visited: set<nat>, cluster: seq<Entry>)
    requires |entries| == |fs|
  {
    && NeighborsInv(fs, eps, minSamples, neighbors, nbs)
    && VisitInv(entries, clusters, visited0, k, nbs, visited, cluster)
    && ClusterInv(entries, fs, eps, minSamples, index, clusters, visited, cluster)
    && ClosedOrPending(fs, entries, eps, minSamples, visited, clusters, cluster, nbs)
    && AnchorInv(entries, fs, eps, minSamples, cluster, nbs)
  }

  /** Every index in the neighbour list lies within eps of a core member of the
      growing cluster, and the cluster is anchored. */
  ghost predicate AnchorInv(entries: seq<Entry>, fs: seq<Features>, eps: real, minSamples: int,
                            cluster: seq<Entry>, nbs: seq<nat>)
    requires |entries| == |fs|
  {
    && (forall t :: 0 <= t < |nbs| && nbs[t] < |fs| ==> NearCoreMember(entries, fs, eps, minSamples, cluster, nbs[t]))
    && Anchored(entries, fs, eps, minSamples, cluster)
  }

  /** What the loop inside `expand_cluster` needs of its state to take a step. */
  lemma InnerShape(entries: seq<Entry>, fs: seq<Features>, eps: real, minSamples: int,
                   index: nat, neighbors: seq<nat>, clusters: seq<seq<Entry>>, visited0: set<nat>,
                   k: nat, nbs: seq<nat>, visited: set<nat>, cluster: seq<Entry>)
    requires |entries| == |fs|
    requires InnerInv(entries, fs, eps, minSamples, index, neighbors, clusters, visited0, k, nbs, visited, cluster)
    ensures k <= |nbs| <= |fs| && Distinct(nbs)
    ensures forall t :: 0 <= t < |nbs| ==> nbs[t] < |fs|
  {
  }

  /** The neighbour list holds each index once, only indices next to a core
      point, and at least the seed's neighbourhood. */
  ghost predicate NeighborsInv(fs: seq<Features>, eps: real, minSamples: int, neighbors: seq<nat>, nbs: seq<nat>) {
    && |nbs| <= |fs|
    && Distinct(nbs)
    && (forall t :: 0 <= t < |nbs| ==> nbs[t] < |fs| && Reachable(fs, eps, minSamples, nbs[t]))
    && (forall j :: j in neighbors ==> j in nbs)
  }

  /** Points visited during this expansion are the positions already passed,
      and each of those has been placed. */
  ghost predicate VisitInv(entries: seq<Entry>, clusters: seq<seq<Entry>>, visited0: set<nat>,
                           k: nat, nbs: seq<nat>, visited: set<nat>, cluster: seq<Entry>)
  {
    && k <= |nbs|
    && visited0 <= visited && (forall v :: v in visited ==> v < |entries|)
    && (forall v :: v in visited && v !in visited0 ==> v in nbs[..k])
    && (forall t :: 0 <= t < k ==>
          (nbs[t] in visited && nbs[t] < |entries| && (entries[nbs[t]] in Members(clusters) || entries[nbs[t]] in cluster)))
  }

  /** The growing cluster starts with the seed, repeats nothing, takes nothing
      from earlier clusters and holds only visited clusterable points. */
  ghost predicate ClusterInv(entries: seq<Entry>, fs: seq<Features>, eps: real, minSamples: int,
                             index: nat, clusters: seq<seq<Entry>>, visited: set<nat>, cluster: seq<Entry>)
    requires |entries| == |fs|
  {
    && index < |entries|
    && |cluster| > 0 && cluster[0] == entries[index] && Distinct(cluster)
    && (forall t :: 0 <= t < |cluster| ==> cluster[t] in entries && cluster[t] !in Members(clusters))
    && (forall j :: 0 <= j < |fs| && entries[j] in cluster ==> j in visited && Clusterable(fs, eps, minSamples, j))
  }

  lemma ExpandStart(entries: seq<Entry>, fs: seq<Features>, eps: real, minSamples: int,
                    index: nat, neighbors: seq<nat>, clusters: seq<seq<Entry>>, visited0: set<nat>)
    requires |entries| == |fs| && Distinct(entries)
    requires index < |fs| && index in visited0
    requires neighbors == Region(fs, eps, index) && |neighbors| >= minSamples
    requires forall v :: v in visited0 ==> v < |fs|
    requires Members(clusters) <= Elements(entries)
    requires forall k :: 0 <= k < |fs| && entries[k] in Members(clusters) ==> k in visited0 && k != index
    requires CoreClosed(fs, entries, eps, minSamples, visited0 - {index}, Members(clusters))
    ensures InnerInv(entries, fs, eps, minSamples, index, neighbors, clusters, visited0, 0, neighbors, visited0, [entries[index]])
  {
    var n := |fs|;
    IncreasingDistinct(neighbors);
    DistinctBounded(neighbors, n);
    ReachableByCore(fs, eps, minSamples, index, neighbors);
    ElementsIn(entries);
    assert entries[index] !in Members(clusters);
    forall j | 0 <= j < n && entries[j] in [entries[index]]
      ensures j in visited0 && Clusterable(fs, eps, minSamples, j) && IsCore(fs, eps, minSamples, j)
    {
      assert entries[j] == entries[index];
      assert j == index;
    }
    forall t | 0 <= t < |neighbors| && neighbors[t] < n
      ensures NearCoreMember(entries, fs, eps, minSamples, [entries[index]], neighbors[t])
    {
      assert entries[index] in [entries[index]];
      assert Near(fs[index], fs[neighbors[t]], eps);
    }
  }

  /** One pass of the loop inside `expand_cluster` keeps its state. */
  lemma InnerStep(entries: seq<Entry>, fs: seq<Features>, eps: real, minSamples: int,
                  index: nat, neighbors: seq<nat>, clusters: seq<seq<Entry>>, visited0: set<nat>,
                  k: nat, nbs: seq<nat>, visited: set<nat>, cluster: seq<Entry>,
                  nbs1: seq<nat>, visited1: set<nat>, cluster1: seq<Entry>)
    requires |entries| == |fs| && Distinct(entries)
    requires InnerInv(entries, fs, eps, minSamples, index, neighbors, clusters, visited0, k, nbs, visited, cluster)
    requires k < |nbs| && nbs[k] < |fs|
    requires visited1 == visited + {nbs[k]}
    requires |nbs| <= |nbs1| && nbs1[..|nbs|] == nbs && Distinct(nbs1)
    requires forall x :: x in nbs1 <==>
      (x in nbs || (nbs[k] !in visited && IsCore(fs, eps, minSamples, nbs[k]) && x in Region(fs, eps, nbs[k])))
    requires cluster1 == if entries[nbs[k]] in Members(clusters) || entries[nbs[k]] in cluster then cluster
                         else cluster + [entries[nbs[k]]]
    requires forall k' :: 0 <= k' < |fs| && entries[k'] in Members(clusters) ==> k' in visited0
    ensures InnerInv(entries, fs, eps, minSamples, index, neighbors, clusters, visited0, k + 1, nbs1, visited1, cluster1)
  {
    hide NearCoreMember, Anchored, ClosedOrPending, Reachable, Clusterable, IsCore;
    assert nbs[k] in nbs;
    StepNeighbors(fs, eps, minSamples, neighbors, nbs, nbs1, nbs[k], visited);
    StepVisit(entries, clusters, visited0, k, nbs, visited, cluster, nbs1, visited1, cluster1);
    StepCluster(entries, fs, eps, minSamples, index, clusters, visited, cluster, nbs[k], cluster1);
    StepClosed(entries, fs, eps, minSamples, clusters, visited, cluster, nbs, nbs[k], nbs1, cluster1);
    StepAnchor(entries, fs, eps, minSamples, clusters, visited, cluster, nbs, nbs[k], nbs1, cluster1);
  }

  lemma StepNeighbors(fs: seq<Features>, eps: real, minSamples: int, neighbors: seq<nat>,
                      nbs: seq<nat>, nbs1: seq<nat>, j: nat, visited: set<nat>)
    requires NeighborsInv(fs, eps, minSamples, neighbors, nbs)
    requires j < |fs|
    requires |nbs| <= |nbs1| && nbs1[..|nbs|] == nbs && Distinct(nbs1)
    requires forall x :: x in nbs1 <==>
      (x in nbs || (j !in visited && IsCore(fs, eps, minSamples, j) && x in Region(fs, eps, j)))
    ensures NeighborsInv(fs, eps, minSamples, neighbors, nbs1)
  {
    var n := |fs|;
    forall t | 0 <= t < |nbs1| ensures nbs1[t] < n && Reachable(fs, eps, minSamples, nbs1[t]) {
      assert nbs1[t] in nbs1;
      if nbs1[t] in nbs {
        var u :| 0 <= u < |nbs| && nbs[u] == nbs1[t];
      } else {
        var r := Region(fs, eps, j);
        var u :| 0 <= u < |r| && r[u] == nbs1[t];
        assert IsCore(fs, eps, minSamples, j) && Near(fs[j], fs[nbs1[t]], eps);
      }
    }
    DistinctBounded(nbs1, n);
  }

  lemma StepVisit(entries: seq<Entry>, clusters: seq<seq<Entry>>, visited0: set<nat>,
                  k: nat, nbs: seq<nat>, visited: set<nat>, cluster: seq<Entry>,
                  nbs1: seq<nat>, visited1: set<nat>, cluster1: seq<Entry>)
    requires VisitInv(entries, clusters, visited0, k, nbs, visited, cluster)
    requires k < |nbs| && nbs[k] < |entries|
    requires visited1 == visited + {nbs[k]}
    requires |nbs| <= |nbs1| && nbs1[..|nbs|] == nbs
    requires cluster1 == if entries[nbs[k]] in Members(clusters) || entries[nbs[k]] in cluster then cluster
                         else cluster + [entries[nbs[k]]]
    ensures VisitInv(entries, clusters, visited0, k + 1, nbs1, visited1, cluster1)
  {
    assert nbs1[..k + 1] == nbs[..k] + [nbs[k]];
    assert forall t :: 0 <= t < |nbs| ==> nbs1[t] == nbs[t];
  }

  lemma StepCluster(entries: seq<Entry>, fs: seq<Features>, eps: real, minSamples: int,
                    index: nat, clusters: seq<seq<Entry>>, visited: set<nat>, cluster: seq<Entry>,
                    j: nat, cluster1: seq<Entry>)
    requires |entries| == |fs| && Distinct(entries)
    requires ClusterInv(entries, fs, eps, minSamples, index, clusters, visited, cluster)
    requires j < |fs| && Reachable(fs, eps, minSamples, j)
    requires cluster1 == if entries[j] in Members(clusters) || entries[j] in cluster then cluster
                         else cluster + [entries[j]]
    ensures ClusterInv(entries, fs, eps, minSamples, index, clusters, visited + {j}, cluster1)
  {
    forall j' | 0 <= j' < |fs| && entries[j'] in cluster1
      ensures j' in visited + {j} && Clusterable(fs, eps, minSamples, j')
    {
      if entries[j'] !in cluster {
        assert entries[j'] == entries[j];
        assert j' == j;
      }
    }
  }

  lemma StepClosed(entries: seq<Entry>, fs: seq<Features>, eps: real, minSamples: int,
                   clusters: seq<seq<Entry>>, visited: set<nat>, cluster: seq<Entry>,
                   nbs: seq<nat>, j: nat, nbs1: seq<nat>, cluster1: seq<Entry>)
    requires |entries| == |fs|
    requires ClosedOrPending(fs, entries, eps, minSamples, visited, clusters, cluster, nbs)
    requires j < |fs|
    requires forall x :: x in nbs1 <==>
      (x in nbs || (j !in visited && IsCore(fs, eps, minSamples, j) && x in Region(fs, eps, j)))
    requires forall x :: x in cluster ==> x in cluster1
    ensures ClosedOrPending(fs, entries, eps, minSamples, visited + {j}, clusters, cluster1, nbs1)
  {
    forall m, j' | m in visited + {j} && m < |fs| && 0 <= j' < |fs| && IsCore(fs, eps, minSamples, m) && Near(fs[m], fs[j'], eps)
      ensures entries[j'] in Members(clusters) || entries[j'] in cluster1 || j' in nbs1
    {
      if m == j && m !in visited {
        assert j' in Region(fs, eps, j);
      }
    }
  }

  lemma StepAnchor(entries: seq<Entry>, fs: seq<Features>, eps: real, minSamples: int,
                   clusters: seq<seq<Entry>>, visited: set<nat>, cluster: seq<Entry>,
                   nbs: seq<nat>, j: nat, nbs1: seq<nat>, cluster1: seq<Entry>)
    requires |entries| == |fs| && Distinct(entries)
    requires AnchorInv(entries, fs, eps, minSamples, cluster, nbs)
    requires j < |fs| && j in nbs
    requires j !in visited ==> entries[j] !in Members(clusters)
    requires forall x :: x in nbs1 <==>
      (x in nbs || (j !in visited && IsCore(fs, eps, minSamples, j) && x in Region(fs, eps, j)))
    requires forall x :: x in cluster ==> x in cluster1
    requires forall x :: x in cluster1 ==> x in cluster || x == entries[j]
    requires entries[j] !in Members(clusters) ==> entries[j] in cluster1
    ensures AnchorInv(entries, fs, eps, minSamples, cluster1, nbs1)
  {
    var n := |fs|;
    forall x | 0 <= x < n && NearCoreMember(entries, fs, eps, minSamples, cluster, x)
      ensures NearCoreMember(entries, fs, eps, minSamples, cluster1, x)
    {
      var m :| 0 <= m < n && entries[m] in cluster && IsCore(fs, eps, minSamples, m) && Near(fs[m], fs[x], eps);
      assert entries[m] in cluster1;
    }
    var u :| 0 <= u < |nbs| && nbs[u] == j;
    assert NearCoreMember(entries, fs, eps, minSamples, cluster, j);
    forall t | 0 <= t < |nbs1| && nbs1[t] < n
      ensures NearCoreMember(entries, fs, eps, minSamples, cluster1, nbs1[t])
    {
      assert nbs1[t] in nbs1;
      if nbs1[t] in nbs {
        var u' :| 0 <= u' < |nbs| && nbs[u'] == nbs1[t];
      } else {
        assert entries[j] in cluster1;
        assert Near(fs[j], fs[nbs1[t]], eps);
      }
    }
    forall k | 0 <= k < n && entries[k] in cluster1
      ensures IsCore(fs, eps, minSamples, k) || NearCoreMember(entries, fs, eps, minSamples, cluster1, k)
    {
      if entries[k] !in cluster {
        assert entries[k] == entries[j];
        assert k == j;
      }
    }
  }

  lemma ExpandEnd(entries: seq<Entry>, fs: seq<Features>, eps: real, minSamples: int,
                  index: nat, neighbors: seq<nat>, clusters: seq<seq<Entry>>, visited0: set<nat>,
                  nbs: seq<nat>, visited: set<nat>, cluster: seq<Entry>)
    requires |entries| == |fs|
    requires InnerInv(entries, fs, eps, minSamples, index, neighbors, clusters, visited0, |nbs|, nbs, visited, cluster)
    ensures |cluster| > 0 && cluster[0] == entries[index] && Distinct(cluster)
    ensures forall t :: 0 <= t < |cluster| ==> cluster[t] in entries && cluster[t] !in Members(clusters)
    ensures forall k :: 0 <= k < |fs| && entries[k] in cluster ==> k in visited && Clusterable(fs, eps, minSamples, k)
    ensures visited0 <= visited && forall v :: v in visited ==> v < |fs|
    ensures forall v :: v in visited && v !in visited0 ==> Reachable(fs, eps, minSamples, v)
    ensures forall v :: v in visited && v !in visited0 ==> entries[v] in Members(clusters) || entries[v] in cluster
    ensures forall v :: v in visited && v !in visited0 ==> NearCoreMember(entries, fs, eps, minSamples, cluster, v)
    ensures CoreClosed(fs, entries, eps, minSamples, visited, Members(clusters) + Elements(cluster))
    ensures Anchored(entries, fs, eps, minSamples, cluster)
  {
    var n := |fs|;
    ElementsIn(cluster);
    assert nbs[..|nbs|] == nbs;
    forall m, j | m in visited && m < n && 0 <= j < n && IsCore(fs, eps, minSamples, m) && Near(fs[m], fs[j], eps)
      ensures entries[j] in Members(clusters) + Elements(cluster)
    {
      if j in nbs {
        var t :| 0 <= t < |nbs| && nbs[t] == j;
      }
    }
    forall v | v in visited && v !in visited0
      ensures Reachable(fs, eps, minSamples, v)
      ensures entries[v] in Members(clusters) || entries[v] in cluster
      ensures NearCoreMember(entries, fs, eps, minSamples, cluster, v)
    {
      var t :| 0 <= t < |nbs| && nbs[t] == v;
    }
  }

  /** Every point of a core point's neighbourhood is reachable. */
  lemma ReachableByCore(fs: seq<Features>, eps: real, minSamples: int, m: nat, nn: seq<nat>)
    requires m < |fs| && nn == Region(fs, eps, m) && |nn| >= minSamples
    ensures forall t :: 0 <= t < |nn| ==> nn[t] < |fs| && Reachable(fs, eps, minSamples, nn[t])
  {
    forall t | 0 <= t < |nn| ensures Reachable(fs, eps, minSamples, nn[t]) {
      assert IsCore(fs, eps, minSamples, m) && Near(fs[m], fs[nn[t]], eps);
    }
  }

  /** The main loop of `cluster_entries` over the feature records: returns the
      clusters in order of their seeds and the noise set. */
  method Segment(entries: seq<Entry>, fs: seq<Features>, eps: real, minSamples: int)
    returns (clusters: seq<seq<Entry>>, noise: set<nat>)
    requires |entries| == |fs| && Distinct(entries)
    ensures forall p :: 0 <= p < |clusters| ==> |clusters[p]| > 0 && Distinct(clusters[p])
    ensures PairwiseDisjoint(clusters)
    ensures forall p, t :: 0 <= p < |clusters| && 0 <= t < |clusters[p]| ==> clusters[p][t] in entries
    ensures forall k :: 0 <= k < |fs| ==> (entries[k] in Members(clusters) <==> Clusterable(fs, eps, minSamples, k))
    ensures forall k :: k in noise ==> k < |fs| && !IsCore(fs, eps, minSamples, k)
    ensures forall k :: 0 <= k < |fs| && !Clusterable(fs, eps, minSamples, k) ==> k in noise
    ensures CoreLinked(entries, fs, eps, minSamples, clusters)
    ensures CoreAnchored(entries, fs, eps, minSamples, clusters)
    ensures NoLaterClaim(entries, fs, eps, minSamples, clusters)
  {
    hide OuterInv, CoreClosed, Clusterable, CoreLinked, CoreAnchored, NoLaterClaim;
    var n := |fs|;
    clusters := [];
    noise := {};
    var visited: set<nat> := {};
    SegmentStart(entries, fs, eps, minSamples);
    var i := 0;
    while i < n
      invariant 0 <= i <= n
      invariant OuterInv(entries, fs, eps, minSamples, i, visited, clusters, noise)
    {
      if i !in visited {
        var neighbors := RegionQuery(fs, eps, i);
        if |neighbors| < minSamples {
          NoiseStep(entries, fs, eps, minSamples, i, visited, clusters, noise);
          visited := visited + {i};
          noise := noise + {i};
        } else {
          ExpandReady(entries, fs, eps, minSamples, i, visited, clusters, noise);
          var cluster, visited1 := ExpandCluster(entries, fs, eps, minSamples, i, neighbors, clusters, visited + {i});
          ExpandStep(entries, fs, eps, minSamples, i, visited, clusters, noise, cluster, visited1);
          visited := visited1;
          clusters := clusters + [cluster];
        }
      } else {
        SkipStep(entries, fs, eps, minSamples, i, visited, clusters, noise);
      }
      i := i + 1;
    }
    SegmentEnd(entries, fs, eps, minSamples, visited, clusters, noise);
  }

  /** Before the first point, nothing is visited, clustered or noise. */
  lemma SegmentStart(entries: seq<Entry>, fs: seq<Features>, eps: real, minSamples: int)
    requires |entries| == |fs|
    ensures OuterInv(entries, fs, eps, minSamples, 0, {}, [], {})
  {
  }

  /** The main-loop state before an unvisited point gives what an expansion
      from it needs. */
  lemma ExpandReady(entries: seq<Entry>, fs: seq<Features>, eps: real, minSamples: int,
                    i: nat, visited: set<nat>, clusters: seq<seq<Entry>>, noise: set<nat>)
    requires |entries| == |fs| && i < |fs| && i !in visited
    requires OuterInv(entries, fs, eps, minSamples, i, visited, clusters, noise)
    ensures forall v :: v in visited + {i} ==> v < |fs|
    ensures Members(clusters) <= Elements(entries)
    ensures forall k :: 0 <= k < |fs| && entries[k] in Members(clusters) ==> k in visited + {i} && k != i
    ensures CoreClosed(fs, entries, eps, minSamples, visited + {i} - {i}, Members(clusters))
  {
    assert visited + {i} - {i} == visited;
  }

  /** Once every point is visited, the main-loop state gives the outcome of
      the pass. */
  lemma SegmentEnd(entries: seq<Entry>, fs: seq<Features>, eps: real, minSamples: int,
                   visited: set<nat>, clusters: seq<seq<Entry>>, noise: set<nat>)
    requires |entries| == |fs|
    requires OuterInv(entries, fs, eps, minSamples, |fs|, visited, clusters, noise)
    ensures forall p :: 0 <= p < |clusters| ==> |clusters[p]| > 0 && Distinct(clusters[p])
    ensures PairwiseDisjoint(clusters)
    ensures forall p, t :: 0 <= p < |clusters| && 0 <= t < |clusters[p]| ==> clusters[p][t] in entries
    ensures forall k :: 0 <= k < |fs| ==> (entries[k] in Members(clusters) <==> Clusterable(fs, eps, minSamples, k))
    ensures forall k :: k in noise ==> k < |fs| && !IsCore(fs, eps, minSamples, k)
    ensures forall k :: 0 <= k < |fs| && !Clusterable(fs, eps, minSamples, k) ==> k in noise
    ensures CoreLinked(entries, fs, eps, minSamples, clusters)
    ensures CoreAnchored(entries, fs, eps, minSamples, clusters)
    ensures NoLaterClaim(entries, fs, eps, minSamples, clusters)
  {
    var n := |fs|;
    LinkedByClaim(entries, fs, eps, minSamples, visited, clusters);
    forall k | 0 <= k < n && Clusterable(fs, eps, minSamples, k)
      ensures entries[k] in Members(clusters)
    {
      if !IsCore(fs, eps, minSamples, k) {
        var m :| 0 <= m < n && IsCore(fs, eps, minSamples, m) && Near(fs[m], fs[k], eps);
        assert m in visited;
      }
    }
    forall p, t | 0 <= p < |clusters| && 0 <= t < |clusters[p]|
      ensures clusters[p][t] in entries
    {
      MembersAt(clusters, clusters[p][t]);
      ElementsIn(entries);
    }
  }

  /** Core points within eps of each other share their cluster (a chain of
      such points is one cluster). */
  ghost predicate CoreLinked(entries: seq<Entry>, fs: seq<Features>, eps: real, minSamples: int, clusters: seq<seq<Entry>>)
    requires |entries| == |fs|
  {
    forall p, a, b :: 0 <= p < |clusters| && 0 <= a < |fs| && 0 <= b < |fs| && entries[a] in clusters[p]
      && IsCore(fs, eps, minSamples, a) && IsCore(fs, eps, minSamples, b) && Near(fs[a], fs[b], eps)
      ==> entries[b] in clusters[p]
  }

  /** Every cluster is anchored: each member is a core point or next to a core
      member of its own cluster. */
  ghost predicate CoreAnchored(entries: seq<Entry>, fs: seq<Features>, eps: real, minSamples: int, clusters: seq<seq<Entry>>)
    requires |entries| == |fs|
  {
    forall p :: 0 <= p < |clusters| ==> Anchored(entries, fs, eps, minSamples, clusters[p])
  }

  /** No cluster takes a point next to a core member of an earlier cluster: the
      earlier expansion already placed that whole neighbourhood. */
  ghost predicate NoLaterClaim(entries: seq<Entry>, fs: seq<Features>, eps: real, minSamples: int, clusters: seq<seq<Entry>>)
    requires |entries| == |fs|
  {
    forall p, q, m, j :: 0 <= p < q < |clusters| && 0 <= m < |fs| && 0 <= j < |fs| && entries[m] in clusters[p]
      && IsCore(fs, eps, minSamples, m) && Near(fs[m], fs[j], eps)
      ==> entries[j] !in clusters[q]
  }

  /** With disjoint clusters, a clustered core point's neighbourhood clustered
      and no later claim, near core points share their cluster. */
  lemma LinkedByClaim(entries: seq<Entry>, fs: seq<Features>, eps: real, minSamples: int,
                      visited: set<nat>, clusters: seq<seq<Entry>>)
    requires |entries| == |fs|
    requires PairwiseDisjoint(clusters)
    requires forall k :: 0 <= k < |fs| && entries[k] in Members(clusters) ==> k in visited
    requires CoreClosed(fs, entries, eps, minSamples, visited, Members(clusters))
    requires NoLaterClaim(entries, fs, eps, minSamples, clusters)
    ensures CoreLinked(entries, fs, eps, minSamples, clusters)
  {
    var n := |fs|;
    forall p, a, b | 0 <= p < |clusters| && 0 <= a < n && 0 <= b < n && entries[a] in clusters[p]
      && IsCore(fs, eps, minSamples, a) && IsCore(fs, eps, minSamples, b) && Near(fs[a], fs[b], eps)
      ensures entries[b] in clusters[p]
    {
      MembersAt(clusters, entries[a]);
      MembersAt(clusters, entries[b]);
      forall q | 0 <= q < |clusters| && q != p ensures entries[b] !in clusters[q] {
        if q < p {
          NearSymmetric(fs[a], fs[b], eps);
        }
      }
    }
  }

  /** The state of the main loop before point i is looked at. */
  ghost predicate OuterInv(entries: seq<Entry>, fs: seq<Features>, eps: real, minSamples: int,
                           i: nat, visited: set<nat>, clusters: seq<seq<Entry>>, noise: set<nat>)
    requires |entries| == |fs|
  {
    var n := |fs|;
    && i <= n
    && (forall k :: 0 <= k < i ==> k in visited)
    && (forall v :: v in visited ==> v < n)
    && (forall p :: 0 <= p < |clusters| ==> |clusters[p]| > 0 && Distinct(clusters[p]))
    && PairwiseDisjoint(clusters)
    && Members(clusters) <= Elements(entries)
    && (forall k :: 0 <= k < n && entries[k] in Members(clusters) ==> k in visited && Clusterable(fs, eps, minSamples, k))
    && CoreClosed(fs, entries, eps, minSamples, visited, Members(clusters))
    && (forall v :: v in visited && v < n && IsCore(fs, eps, minSamples, v) ==> entries[v] in Members(clusters))
    && (forall v :: v in visited && v < n ==> Clusterable(fs, eps, minSamples, v) || v in noise)
    && (forall v :: v in noise ==> v in visited && v < n && !IsCore(fs, eps, minSamples, v))
    && CoreAnchored(entries, fs, eps, minSamples, clusters)
    && NoLaterClaim(entries, fs, eps, minSamples, clusters)
  }

  lemma SkipStep(entries: seq<Entry>, fs: seq<Features>, eps: real, minSamples: int,
                 i: nat, visited: set<nat>, clusters: seq<seq<Entry>>, noise: set<nat>)
    requires |entries| == |fs| && i < |fs| && i in visited
    requires OuterInv(entries, fs, eps, minSamples, i, visited, clusters, noise)
    ensures OuterInv(entries, fs, eps, minSamples, i + 1, visited, clusters, noise)
  {
  }

  /** A point with too few neighbours becomes noise; it is not a core point. */
  lemma NoiseStep(entries: seq<Entry>, fs: seq<Features>, eps: real, minSamples: int,
                  i: nat, visited: set<nat>, clusters: seq<seq<Entry>>, noise: set<nat>)
    requires |entries| == |fs| && i < |fs| && i !in visited
    requires !IsCore(fs, eps, minSamples, i)
    requires OuterInv(entries, fs, eps, minSamples, i, visited, clusters, noise)
    ensures OuterInv(entries, fs, eps, minSamples, i + 1, visited + {i}, clusters, noise + {i})
  {
  }

  /** A finished expansion from the core point i keeps the main-loop state. */
  lemma ExpandStep(entries: seq<Entry>, fs: seq<Features>, eps: real, minSamples: int,
                   i: nat, visited: set<nat>, clusters: seq<seq<Entry>>, noise: set<nat>,
                   cluster: seq<Entry>, visited1: set<nat>)
    requires |entries| == |fs| && i < |fs| && i !in visited && Distinct(entries)
    requires IsCore(fs, eps, minSamples, i)
    requires OuterInv(entries, fs, eps, minSamples, i, visited, clusters, noise)
    requires |cluster| > 0 && cluster[0] == entries[i] && Distinct(cluster)
    requires forall t :: 0 <= t < |cluster| ==> cluster[t] in entries && cluster[t] !in Members(clusters)
    requires forall k :: 0 <= k < |fs| && entries[k] in cluster ==> k in visited1 && Clusterable(fs, eps, minSamples, k)
    requires visited + {i} <= visited1 && forall v :: v in visited1 ==> v < |fs|
    requires forall v :: v in visited1 && v !in visited + {i} ==> Reachable(fs, eps, minSamples, v)
    requires forall v :: v in visited1 && v !in visited + {i} ==> entries[v] in Members(clusters) || entries[v] in cluster
    requires CoreClosed(fs, entries, eps, minSamples, visited1, Members(clusters) + Elements(cluster))
    requires Anchored(entries, fs, eps, minSamples, cluster)
    ensures OuterInv(entries, fs, eps, minSamples, i + 1, visited1, clusters + [cluster], noise)
  {
    var cs := clusters + [cluster];
    AnchorStep(entries, fs, eps, minSamples, clusters, cluster);
    ClaimStep(entries, fs, eps, minSamples, visited, clusters, cluster);
    AddCluster(entries, fs, eps, minSamples, clusters, cluster, visited1);
    ShapesStep(clusters, cluster);
    MembersStep(entries, fs, eps, minSamples, visited, clusters, cluster, visited1);
    CoreStep(entries, fs, eps, minSamples, i, visited, clusters, cluster, visited1);
    NoiseKept(fs, eps, minSamples, i, visited, noise, visited1);
    assert Members(cs) == Members(clusters) + Elements(cluster);
  }

  /** Appending an anchored cluster keeps every cluster anchored. */
  lemma AnchorStep(entries: seq<Entry>, fs: seq<Features>, eps: real, minSamples: int,
                   clusters: seq<seq<Entry>>, cluster: seq<Entry>)
    requires |entries| == |fs|
    requires CoreAnchored(entries, fs, eps, minSamples, clusters)
    requires Anchored(entries, fs, eps, minSamples, cluster)
    ensures CoreAnchored(entries, fs, eps, minSamples, clusters + [cluster])
  {
    var cs := clusters + [cluster];
    forall p | 0 <= p < |cs| ensures Anchored(entries, fs, eps, minSamples, cs[p]) {
      if p < |clusters| { assert cs[p] == clusters[p]; }
    }
  }

  /** A new cluster takes nothing from the clustered neighbourhoods of earlier
      core members, because those are all placed already. */
  lemma ClaimStep(entries: seq<Entry>, fs: seq<Features>, eps: real, minSamples: int,
                  visited: set<nat>, clusters: seq<seq<Entry>>, cluster: seq<Entry>)
    requires |entries| == |fs|
    requires NoLaterClaim(entries, fs, eps, minSamples, clusters)
    requires forall k :: 0 <= k < |fs| && entries[k] in Members(clusters) ==> k in visited
    requires CoreClosed(fs, entries, eps, minSamples, visited, Members(clusters))
    requires forall t :: 0 <= t < |cluster| ==> cluster[t] !in Members(clusters)
    ensures NoLaterClaim(entries, fs, eps, minSamples, clusters + [cluster])
  {
    var cs := clusters + [cluster];
    forall p, q, m, j | 0 <= p < q < |cs| && 0 <= m < |fs| && 0 <= j < |fs| && entries[m] in cs[p]
      && IsCore(fs, eps, minSamples, m) && Near(fs[m], fs[j], eps)
      ensures entries[j] !in cs[q]
    {
      assert cs[p] == clusters[p];
      if q == |clusters| {
        MembersAt(clusters, entries[m]);
        assert entries[j] in Members(clusters);
      } else {
        assert cs[q] == clusters[q];
      }
    }
  }

  /** Appending a non-empty, duplicate-free cluster keeps every cluster so. */
  lemma ShapesStep(clusters: seq<seq<Entry>>, cluster: seq<Entry>)
    requires forall p :: 0 <= p < |clusters| ==> |clusters[p]| > 0 && Distinct(clusters[p])
    requires |cluster| > 0 && Distinct(cluster)
    ensures var cs := clusters + [cluster];
      forall p :: 0 <= p < |cs| ==> |cs[p]| > 0 && Distinct(cs[p])
  {
    var cs := clusters + [cluster];
    forall p | 0 <= p < |cs| ensures |cs[p]| > 0 && Distinct(cs[p]) {
      if p < |clusters| { assert cs[p] == clusters[p]; }
    }
  }

  /** Every clustered point stays visited and clusterable. */
  lemma MembersStep(entries: seq<Entry>, fs: seq<Features>, eps: real, minSamples: int,
                    visited: set<nat>, clusters: seq<seq<Entry>>, cluster: seq<Entry>, visited1: set<nat>)
    requires |entries| == |fs|
    requires forall k :: 0 <= k < |fs| && entries[k] in Members(clusters) ==> k in visited && Clusterable(fs, eps, minSamples, k)
    requires forall k :: 0 <= k < |fs| && entries[k] in cluster ==> k in visited1 && Clusterable(fs, eps, minSamples, k)
    requires visited <= visited1
    ensures forall k :: 0 <= k < |fs| && entries[k] in Members(clusters) + Elements(cluster) ==>
      k in visited1 && Clusterable(fs, eps, minSamples, k)
  {
    ElementsIn(cluster);
  }

  /** Every visited core point is clustered, the new seed included. */
  lemma CoreStep(entries: seq<Entry>, fs: seq<Features>, eps: real, minSamples: int,
                 i: nat, visited: set<nat>, clusters: seq<seq<Entry>>, cluster: seq<Entry>, visited1: set<nat>)
    requires |entries| == |fs| && i < |fs|
    requires forall v :: v in visited && v < |fs| && IsCore(fs, eps, minSamples, v) ==> entries[v] in Members(clusters)
    requires |cluster| > 0 && cluster[0] == entries[i]
    requires forall v :: v in visited1 ==> v < |fs|
    requires forall v :: v in visited1 && v !in visited + {i} ==> entries[v] in Members(clusters) || entries[v] in cluster
    ensures forall v :: v in visited1 && v < |fs| && IsCore(fs, eps, minSamples, v) ==>
      entries[v] in Members(clusters) + Elements(cluster)
  {
    ElementsIn(cluster);
  }

  /** Every visited point is clusterable or noise: the new ones are reachable. */
  lemma NoiseKept(fs: seq<Features>, eps: real, minSamples: int,
                  i: nat, visited: set<nat>, noise: set<nat>, visited1: set<nat>)
    requires i < |fs| && IsCore(fs, eps, minSamples, i)
    requires forall v :: v in visited && v < |fs| ==> Clusterable(fs, eps, minSamples, v) || v in noise
    requires forall v :: v in visited1 ==> v < |fs|
    requires forall v :: v in visited1 && v !in visited + {i} ==> Reachable(fs, eps, minSamples, v)
    ensures forall v :: v in visited1 && v < |fs| ==> Clusterable(fs, eps, minSamples, v) || v in noise
  {
  }

  /** Appending a finished cluster keeps the union facts. */
  lemma AddCluster(entries: seq<Entry>, fs: seq<Features>, eps: real, minSamples: int,
                   clusters: seq<seq<Entry>>, cluster: seq<Entry>, visited: set<nat>)
    requires |entries| == |fs|
    requires PairwiseDisjoint(clusters)
    requires forall t :: 0 <= t < |cluster| ==> cluster[t] in entries && cluster[t] !in Members(clusters)
    requires Members(clusters) <= Elements(entries)
    ensures PairwiseDisjoint(clusters + [cluster])
    ensures Members(clusters + [cluster]) == Members(clusters) + Elements(cluster)
    ensures Members(clusters + [cluster]) <= Elements(entries)
  {
    var cs := clusters + [cluster];
    assert cs[..|cs| - 1] == clusters;
    ElementsIn(cluster);
    ElementsIn(entries);
    forall p, q, x | 0 <= p < q < |cs| && x in cs[p] ensures x !in cs[q] {
      if q == |clusters| {
        MembersAt(clusters, x);
        assert cs[p] == clusters[p];
      }
    }
  }

  // ---------------------------------------------------------------------
  // Classification

  const CodingApps: seq<string> := ["code", "vscode", "cursor", "pycharm", "intellij", "vim", "terminal"]
  const GamingApps: seq<string> := ["game", "steam", "epic"]
  const GamingTitles: seq<string> := ["game"]
  const VideoApps: seq<string> := ["youtube", "netflix", "vlc", "mpv"]
  const MeetingTitles: seq<string> := ["meeting", "zoom", "teams", "meet"]

  /** Some lower-cased app name contains some keyword. */
  predicate AppMatches(entries: seq<Entry>, keywords: seq<string>) {
    exists i, j :: 0 <= i < |entries| && 0 <= j < |keywords| && Contains(Lower(entries[i].app), keywords[j])
  }

  /** Some lower-cased window title contains some keyword. */
  predicate TitleMatches(entries: seq<Entry>, keywords: seq<string>) {
    exists i, j :: 0 <= i < |entries| && 0 <= j < |keywords| && Contains(Lower(entries[i].title), keywords[j])
  }

  /** `classify_event_type`: the first category whose keywords match, in the
      order coding, gaming, video, meeting; browsing otherwise. */
  function ClassifyEventType(entries: seq<Entry>): (t: EventType)
    ensures t != Other
  {
    if AppMatches(entries, CodingApps) then Coding
    else if AppMatches(entries, GamingApps) || TitleMatches(entries, GamingTitles) then Gaming
    else if AppMatches(entries, VideoApps) then Video
    else if TitleMatches(entries, MeetingTitles) then Meeting
    else Browsing
  }

  /** Each category is chosen exactly when its keywords match and no earlier
      category's do; browsing exactly when nothing matches. */
  lemma ClassifySpec(entries: seq<Entry>)
    ensures var t := ClassifyEventType(entries);
      var coding := AppMatches(entries, CodingApps);
      var gaming := AppMatches(entries, GamingApps) || TitleMatches(entries, GamingTitles);
      var video := AppMatches(entries, VideoApps);
      var meeting := TitleMatches(entries, MeetingTitles);
      && (t == Coding <==> coding)
      && (t == Gaming <==> !coding && gaming)
      && (t == Video <==> !coding && !gaming && video)
      && (t == Meeting <==> !coding && !gaming && !video && meeting)
      && (t == Browsing <==> !coding && !gaming && !video && !meeting)
  {
  }

  /** The classification depends on the members only, not on their order: the
      in-place sort before classifying does not change the category. */
  lemma ClassifyPermutation(a: seq<Entry>, b: seq<Entry>)
    requires multiset(a) == multiset(b)
    ensures ClassifyEventType(a) == ClassifyEventType(b)
  {
    SameMembers(a, b);
    SameMembers(b, a);
    AppMatchesSub(a, b, CodingApps);
    AppMatchesSub(b, a, CodingApps);
    AppMatchesSub(a, b, GamingApps);
    AppMatchesSub(b, a, GamingApps);
    TitleMatchesSub(a, b, GamingTitles);
    TitleMatchesSub(b, a, GamingTitles);
    AppMatchesSub(a, b, VideoApps);
    AppMatchesSub(b, a, VideoApps);
    TitleMatchesSub(a, b, MeetingTitles);
    TitleMatchesSub(b, a, MeetingTitles);
  }

  lemma SameMembers(a: seq<Entry>, b: seq<Entry>)
    requires multiset(a) == multiset(b)
    ensures forall x :: x in a ==> x in b
  {
    forall x | x in a ensures x in b {
      assert x in multiset(a);
    }
  }

  lemma AppMatchesSub(a: seq<Entry>, b: seq<Entry>, keywords: seq<string>)
    requires forall x :: x in a ==> x in b
    ensures AppMatches(a, keywords) ==> AppMatches(b, keywords)
  {
    if AppMatches(a, keywords) {
      var i, j :| 0 <= i < |a| && 0 <= j < |keywords| && Contains(Lower(a[i].app), keywords[j]);
      assert a[i] in b;
      var i' :| 0 <= i' < |b| && b[i'] == a[i];
      assert Contains(Lower(b[i'].app), keywords[j]);
    }
  }

  lemma TitleMatchesSub(a: seq<Entry>, b: seq<Entry>, keywords: seq<string>)
    requires forall x :: x in a ==> x in b
    ensures TitleMatches(a, keywords) ==> TitleMatches(b, keywords)
  {
    if TitleMatches(a, keywords) {
      var i, j :| 0 <= i < |a| && 0 <= j < |keywords| && Contains(Lower(a[i].title), keywords[j]);
      assert a[i] in b;
      var i' :| 0 <= i' < |b| && b[i'] == a[i];
      assert Contains(Lower(b[i'].title), keywords[j]);
    }
  }

  // ---------------------------------------------------------------------
  // Event building

  /** The stored image name of a capture: `f"{timestamp}.webp"`. */
  function ImageName(ts: int): string {
    IntToString(ts) + ".webp"
  }

  lemma ImageNameInjective(a: int, b: int)
    ensures ImageName(a) == ImageName(b) ==> a == b
  {
    if ImageName(a) == ImageName(b) {
      var ra, rb := IntToString(a), IntToString(b);
      assert |ra| == |rb|;
      assert ra == ImageName(a)[..|ra|] && rb == ImageName(b)[..|rb|];
      IntToStringInjective(a, b);
    }
  }

  /** The thumbnail list before de-duplication: first, last (more than one
      member) and middle (more than two) image. */
  function ThumbnailList(members: seq<Entry>): seq<string>
    requires |members| > 0
  {
    var n := |members|;
    [ImageName(members[0].timestamp)]
      + (if n > 1 then [ImageName(members[n - 1].timestamp)] else [])
      + (if n > 2 then [ImageName(members[n / 2].timestamp)] else [])
  }

  /** `list(set(thumbnails))`, kept as a set. */
  function ThumbnailSet(members: seq<Entry>): set<string>
    requires |members| > 0
  {
    Elements(ThumbnailList(members))
  }

  /** With distinct timestamps the de-duplication removes nothing: there are
      min(n, 3) thumbnails. */
  lemma ThumbnailCount(members: seq<Entry>)
    requires |members| > 0 && UniqueTimestamps(members)
    ensures |ThumbnailSet(members)| == if |members| < 3 then |members| else 3
  {
    var n := |members|;
    ImageNameInjective(members[0].timestamp, members[n - 1].timestamp);
    ImageNameInjective(members[0].timestamp, members[n / 2].timestamp);
    ImageNameInjective(members[n - 1].timestamp, members[n / 2].timestamp);
    DistinctElementsCount(ThumbnailList(members));
  }

  function Apps(entries: seq<Entry>): (apps: seq<string>)
    ensures |apps| == |entries|
    ensures forall i :: 0 <= i < |entries| ==> apps[i] == entries[i].app
  {
    seq(|entries|, i requires 0 <= i < |entries| => entries[i].app)
  }

  /** `sum(len(e.text.split()) for e in entries)`. */
  function WordTotal(entries: seq<Entry>): nat
    decreases |entries|
  {
    if entries == [] then 0 else |Words(entries[0].text)| + WordTotal(entries[1..])
  }

  /** The tags one entry contributes: its app, and its language when that is
      set and not "unknown". A language of None is the empty string here; both
      are falsy. */
  function EntryTags(e: Entry): set<string> {
    {e.app} + (if e.language != "" && e.language != "unknown" then {e.language} else {})
  }

  /** The tag set of a run of entries, accumulated front to back. */
  function TagSet(entries: seq<Entry>): set<string>
    decreases |entries|
  {
    if entries == [] then {}
    else TagSet(entries[..|entries| - 1]) + EntryTags(entries[|entries| - 1])
  }

  /** A tag is exactly an app of some entry or a set, known language of some entry. */
  lemma {:induction false} TagSetMembers(entries: seq<Entry>, t: string)
    ensures t in TagSet(entries) <==>
      (exists i :: 0 <= i < |entries| && entries[i].app == t)
      || (exists i :: 0 <= i < |entries| && entries[i].language == t && t != "" && t != "unknown")
    decreases |entries|
  {
    if entries != [] {
      var n := |entries|;
      var init := entries[..n - 1];
      TagSetMembers(init, t);
      assert forall i :: 0 <= i < n - 1 ==> init[i] == entries[i];
      if (exists i :: 0 <= i < n && entries[i].app == t) && !(exists i :: 0 <= i < n - 1 && init[i].app == t) {
        var i :| 0 <= i < n && entries[i].app == t;
        assert i == n - 1;
      }
      if (exists i :: 0 <= i < n && entries[i].language == t && t != "" && t != "unknown")
         && !(exists i :: 0 <= i < n - 1 && init[i].language == t && t != "" && t != "unknown") {
        var i :| 0 <= i < n && entries[i].language == t && t != "" && t != "unknown";
        assert i == n - 1;
      }
    }
  }

  /** The tag set does not depend on the order of the entries. */
  lemma TagSetPermutation(a: seq<Entry>, b: seq<Entry>)
    requires multiset(a) == multiset(b)
    ensures TagSet(a) == TagSet(b)
  {
    SameMembers(a, b);
    SameMembers(b, a);
    forall t ensures t in TagSet(a) <==> t in TagSet(b) {
      TagSetMembers(a, t);
      TagSetMembers(b, t);
      if t in TagSet(a) {
        if i :| 0 <= i < |a| && (a[i].app == t || (a[i].language == t && t != "" && t != "unknown")) {
          assert a[i] in b;
          var i' :| 0 <= i' < |b| && b[i'] == a[i];
        }
      }
      if t in TagSet(b) {
        if i :| 0 <= i < |b| && (b[i].app == t || (b[i].language == t && t != "" && t != "unknown")) {
          assert b[i] in a;
          var i' :| 0 <= i' < |a| && a[i'] == b[i];
        }
      }
    }
  }

  /** The tag loop of `create_event_from_cluster`. */
  method CollectTags(entries: seq<Entry>) returns (tags: set<string>)
    ensures tags == TagSet(entries)
  {
    tags := {};
    var k := 0;
    while k < |entries|
      invariant 0 <= k <= |entries|
      invariant tags == TagSet(entries[..k])
    {
      var e := entries[k];
      assert entries[..k + 1][..k] == entries[..k];
      tags := tags + {e.app};
      if e.language != "" && e.language != "unknown" {
        tags := tags + {e.language};
      }
      k := k + 1;
    }
    assert entries[..k] == entries;
  }

  /** The event `create_event_from_cluster` returns for its time-ordered
      members, with the id the caller supplies. */
  function EventOf(members: seq<Entry>, id: string): Event
    requires |members| > 0
  {
    var n := |members|;
    var kind := TypeName(ClassifyEventType(members));
    Event(id, members[0].timestamp, members[n - 1].timestamp,
          Capitalize(kind) + " Session", "Processing...", kind,
          Stats(n, TopCounts(Apps(members), 5), WordTotal(members)),
          ImageName(members[n / 2].timestamp), ThumbnailSet(members), TagSet(members))
  }

  /** Builds the event field by field as the source does. */
  method BuildEvent(members: seq<Entry>, id: string) returns (ev: Event)
    requires |members| > 0
    ensures ev == EventOf(members, id)
  {
    var n := |members|;
    var kind := TypeName(ClassifyEventType(members));
    var hero := ImageName(members[n / 2].timestamp);
    var thumbnails := [ImageName(members[0].timestamp)];
    if n > 1 {
      thumbnails := thumbnails + [ImageName(members[n - 1].timestamp)];
    }
    if n > 2 {
      thumbnails := thumbnails + [hero];
    }
    assert thumbnails == ThumbnailList(members);
    var tags := CollectTags(members);
    var stats := Stats(n, TopCounts(Apps(members), 5), WordTotal(members));
    ev := Event(id, members[0].timestamp, members[n - 1].timestamp,
                Capitalize(kind) + " Session", "Processing...", kind, stats, hero, Elements(thumbnails), tags);
  }

  /** `create_event_from_cluster`: sorts the members by time and derives the
      event. The source indexes `entries[0]`, so it is only defined for a
      non-empty cluster. */
  method CreateEventFromCluster(cluster: seq<Entry>, id: string) returns (ev: Event, members: seq<Entry>)
    requires |cluster| > 0
    ensures members == SortByTime(cluster)
    ensures ev == EventOf(members, id)
  {
    members := SortByTime(cluster);
    ev := BuildEvent(members, id);
  }

  /** The event spans its members: it starts at the earliest and ends at the
      latest capture, and counts every member. Stated for any time-ordered
      rearrangement of the cluster, which the sort returns. */
  lemma EventSpan(cluster: seq<Entry>, members: seq<Entry>, id: string)
    requires |cluster| > 0 && SortedByTime(members) && multiset(members) == multiset(cluster)
    ensures var ev := EventOf(members, id);
      && ev.startTime <= ev.endTime
      && (forall e :: e in cluster ==> ev.startTime <= e.timestamp <= ev.endTime)
      && (exists e :: e in cluster && e.timestamp == ev.startTime)
      && (exists e :: e in cluster && e.timestamp == ev.endTime)
      && ev.stats.screenshotCount == |cluster|
  {
    var n := |members|;
    assert n == |multiset(members)| == |cluster|;
    var first, last := members[0], members[n - 1];
    var ev := EventOf(members, id);
    assert ev.startTime == first.timestamp && ev.endTime == last.timestamp && ev.stats.screenshotCount == n;
    SortedSpan(cluster, members);
    assert first in multiset(cluster) && last in multiset(cluster);
  }

  /** A time-ordered rearrangement starts at the earliest and ends at the
      latest timestamp of the cluster. */
  lemma SortedSpan(cluster: seq<Entry>, members: seq<Entry>)
    requires |cluster| > 0 && SortedByTime(members) && multiset(members) == multiset(cluster)
    ensures |members| == |cluster|
    ensures forall e :: e in cluster ==> members[0].timestamp <= e.timestamp <= members[|members| - 1].timestamp
  {
    assert |members| == |multiset(members)| == |cluster|;
    SameMembers(cluster, members);
    SortedPairs(members);
  }

  /** The category, the title and the tags depend only on which captures are
      in the cluster, not on their order. */
  lemma EventOrderFree(cluster: seq<Entry>, members: seq<Entry>, id: string)
    requires |cluster| > 0 && multiset(members) == multiset(cluster)
    ensures EventOf(members, id).kind == TypeName(ClassifyEventType(cluster))
    ensures EventOf(members, id).title == Capitalize(TypeName(ClassifyEventType(cluster))) + " Session"
    ensures EventOf(members, id).tags == TagSet(cluster)
    ensures EventOf(members, id).kind != "other"
  {
    hide TopCounts, WordTotal, ThumbnailSet, ImageName, Capitalize, TagSet, ClassifyEventType, Apps;
    assert |members| == |multiset(members)| == |cluster|;
    ClassifyPermutation(members, cluster);
    TagSetPermutation(members, cluster);
  }

  /** The hero image is one of the thumbnails, and with distinct timestamps
      there are min(n, 3) of them. */
  lemma EventImages(members: seq<Entry>, id: string)
    requires |members| > 0
    ensures EventOf(members, id).heroImage in EventOf(members, id).thumbnails
    ensures UniqueTimestamps(members) ==>
      |EventOf(members, id).thumbnails| == if |members| < 3 then |members| else 3
  {
    var n := |members|;
    var l := ThumbnailList(members);
    ElementsIn(l);
    if n <= 2 {
      assert n / 2 == 0 || n / 2 == n - 1;
      assert l[n / 2] == ImageName(members[n / 2].timestamp);
    } else {
      assert l[2] == ImageName(members[n / 2].timestamp);
    }
    if UniqueTimestamps(members) {
      ThumbnailCount(members);
    }
  }

  /** The app statistics are `Counter(apps).most_common(5)`: at most five
      apps, most frequent first, each with its true count, none left out that
      occurs more often than one kept. */
  lemma EventTopApps(members: seq<Entry>, id: string)
    requires |members| > 0
    ensures var top := EventOf(members, id).stats.topApps;
      && |top| <= 5
      && SortedDesc(top)
      && Distinct(Keys(top))
      && (forall i :: 0 <= i < |top| ==> top[i].0 in Apps(members) && top[i].1 == multiset(Apps(members))[top[i].0])
      && (forall a :: a in Apps(members) && a !in Keys(top) ==>
            |top| == 5 && forall i :: 0 <= i < |top| ==> multiset(Apps(members))[a] <= top[i].1)
  {
    TopCountsSpec(Apps(members), 5);
  }

  // ---------------------------------------------------------------------
  // The whole pass

  /** The feature vectors of a time-ordered run of records. */
  function FeatureVectors(entries: seq<Entry>, cosine: Cosine): (fs: seq<Features>)
    ensures |fs| == |entries|
    ensures forall i :: 0 <= i < |entries| ==> fs[i] == FeatureAt(entries, i, cosine)
  {
    seq(|entries|, i requires 0 <= i < |entries| => FeatureAt(entries, i, cosine))
  }

  /** The member lists of the built events. */
  function Groups(events: seq<(Event, seq<Entry>)>): (gs: seq<seq<Entry>>)
    ensures |gs| == |events|
    ensures forall p :: 0 <= p < |events| ==> gs[p] == events[p].1
  {
    seq(|events|, p requires 0 <= p < |events| => events[p].1)
  }

  /** The event built from one cluster, with its time-ordered members. */
  function EventFromCluster(cluster: seq<Entry>, id: string): (Event, seq<Entry>)
    requires |cluster| > 0
  {
    (EventOf(SortByTime(cluster), id), SortByTime(cluster))
  }

  /** The events built from a list of clusters, in order; the p-th gets
      `newId(p)`. */
  function EventsFromClusters(clusters: seq<seq<Entry>>, newId: nat -> string): (r: seq<(Event, seq<Entry>)>)
    requires forall p :: 0 <= p < |clusters| ==> |clusters[p]| > 0
    ensures |r| == |clusters|
    ensures forall p :: 0 <= p < |clusters| ==> r[p] == EventFromCluster(clusters[p], newId(p))
  {
    seq(|clusters|, p requires 0 <= p < |clusters| => EventFromCluster(clusters[p], newId(p)))
  }

  /** Event p is named by `newId(p)`; when the id source never repeats an id
      (as `uuid.uuid4()` is meant to), no two events share an id. */
  lemma EventIdsDistinct(clusters: seq<seq<Entry>>, newId: nat -> string)
    requires forall p :: 0 <= p < |clusters| ==> |clusters[p]| > 0
    requires forall p, q :: 0 <= p < q < |clusters| ==> newId(p) != newId(q)
    ensures var r := EventsFromClusters(clusters, newId);
      forall p, q :: 0 <= p < q < |r| ==> r[p].0.id != r[q].0.id
  {
    var r := EventsFromClusters(clusters, newId);
    forall p, q | 0 <= p < q < |r| ensures r[p].0.id != r[q].0.id {
      assert r[p].0.id == newId(p) && r[q].0.id == newId(q);
    }
  }

  /** The `for cluster in clusters` loop at the end of `cluster_entries`. */
  method BuildEvents(clusters: seq<seq<Entry>>, newId: nat -> string) returns (events: seq<(Event, seq<Entry>)>)
    requires forall p :: 0 <= p < |clusters| ==> |clusters[p]| > 0
    ensures events == EventsFromClusters(clusters, newId)
  {
    hide EventOf;
    events := [];
    var p := 0;
    while p < |clusters|
      invariant 0 <= p <= |clusters| && |events| == p
      invariant forall q :: 0 <= q < p ==> events[q] == EventFromCluster(clusters[q], newId(q))
    {
      var ev, members := CreateEventFromCluster(clusters[p], newId(p));
      events := events + [(ev, members)];
      p := p + 1;
    }
  }

  /** `cluster_entries`: sorts the records by time, segments them and builds
      one event per cluster, in cluster order. `newId(p)` stands for the fresh
      id drawn for the p-th event. Records arrive from a table whose ids and
      timestamps are unique, so no record is listed twice. */
  method ClusterEntries(entries: seq<Entry>, cosine: Cosine, eps: real, minSamples: int, newId: nat -> string)
    returns (events: seq<(Event, seq<Entry>)>)
    requires Distinct(entries)
    ensures entries == [] ==> events == []
    ensures forall p :: 0 <= p < |events| ==>
      && |events[p].1| > 0 && Distinct(events[p].1) && SortedByTime(events[p].1)
      && events[p].0 == EventOf(events[p].1, newId(p))
    ensures PairwiseDisjoint(Groups(events))
    ensures forall p, t :: 0 <= p < |events| && 0 <= t < |events[p].1| ==> events[p].1[t] in entries
    ensures var sorted := SortByTime(entries);
      forall k :: 0 <= k < |sorted| ==>
        (sorted[k] in Members(Groups(events)) <==> Clusterable(FeatureVectors(sorted, cosine), eps, minSamples, k))
    ensures var sorted := SortByTime(entries);
      && CoreLinked(sorted, FeatureVectors(sorted, cosine), eps, minSamples, Groups(events))
      && CoreAnchored(sorted, FeatureVectors(sorted, cosine), eps, minSamples, Groups(events))
  {
    hide EventOf;
    if entries == [] {
      return [];
    }
    var sorted := SortByTime(entries);
    DistinctByMultiset(entries, sorted);
    var featureData := ExtractFeatures(sorted, cosine);
    var fs := Vectors(featureData);
    assert fs == FeatureVectors(sorted, cosine);
    var clusters, noise := Segment(sorted, fs, eps, minSamples);
    events := BuildEvents(clusters, newId);
    ClusteredEvents(entries, sorted, clusters, events, newId);
    EventGroupsMembers(clusters, events, newId);
    SameGroupsLinked(sorted, fs, eps, minSamples, clusters, Groups(events));
  }

  /** Each event lists exactly the records of its cluster. */
  lemma EventGroupsMembers(clusters: seq<seq<Entry>>, events: seq<(Event, seq<Entry>)>, newId: nat -> string)
    requires forall p :: 0 <= p < |clusters| ==> |clusters[p]| > 0
    requires events == EventsFromClusters(clusters, newId)
    ensures |Groups(events)| == |clusters|
    ensures forall p, x :: 0 <= p < |clusters| ==> (x in Groups(events)[p] <==> x in clusters[p])
  {
    hide EventOf;
    forall p, x | 0 <= p < |clusters| ensures x in Groups(events)[p] <==> x in clusters[p] {
      assert events[p] == EventFromCluster(clusters[p], newId(p));
      assert Groups(events)[p] == SortByTime(clusters[p]);
      assert x in clusters[p] <==> x in multiset(clusters[p]);
      assert x in Groups(events)[p] <==> x in multiset(Groups(events)[p]);
    }
  }

  /** Co-membership facts depend only on which records each group holds, not
      on their order. */
  lemma SameGroupsLinked(entries: seq<Entry>, fs: seq<Features>, eps: real, minSamples: int,
                         a: seq<seq<Entry>>, b: seq<seq<Entry>>)
    requires |entries| == |fs| && |a| == |b|
    requires forall p, x :: 0 <= p < |a| ==> (x in a[p] <==> x in b[p])
    ensures CoreLinked(entries, fs, eps, minSamples, a) ==> CoreLinked(entries, fs, eps, minSamples, b)
    ensures CoreAnchored(entries, fs, eps, minSamples, a) ==> CoreAnchored(entries, fs, eps, minSamples, b)
  {
    if CoreAnchored(entries, fs, eps, minSamples, a) {
      forall p, k | 0 <= p < |b| && 0 <= k < |fs| && entries[k] in b[p] && !IsCore(fs, eps, minSamples, k)
        ensures NearCoreMember(entries, fs, eps, minSamples, b[p], k)
      {
        assert NearCoreMember(entries, fs, eps, minSamples, a[p], k);
        var m :| 0 <= m < |fs| && entries[m] in a[p] && IsCore(fs, eps, minSamples, m) && Near(fs[m], fs[k], eps);
        assert entries[m] in b[p];
      }
    }
  }

  /** The events built from the clusters of a pass: each holds its cluster in
      time order, and they keep the clusters' members and disjointness. */
  lemma ClusteredEvents(entries: seq<Entry>, sorted: seq<Entry>, clusters: seq<seq<Entry>>,
                        events: seq<(Event, seq<Entry>)>, newId: nat -> string)
    requires multiset(sorted) == multiset(entries)
    requires forall p :: 0 <= p < |clusters| ==> |clusters[p]| > 0 && Distinct(clusters[p])
    requires PairwiseDisjoint(clusters)
    requires forall p, t :: 0 <= p < |clusters| && 0 <= t < |clusters[p]| ==> clusters[p][t] in sorted
    requires events == EventsFromClusters(clusters, newId)
    ensures forall p :: 0 <= p < |events| ==>
      && |events[p].1| > 0 && Distinct(events[p].1) && SortedByTime(events[p].1)
      && events[p].0 == EventOf(events[p].1, newId(p))
    ensures PairwiseDisjoint(Groups(events))
    ensures forall p, t :: 0 <= p < |events| && 0 <= t < |events[p].1| ==> events[p].1[t] in entries
    ensures Members(Groups(events)) == Members(clusters)
  {
    hide EventOf;
    forall p | 0 <= p < |events|
      ensures events[p].1 == SortByTime(clusters[p])
      ensures events[p].0 == EventOf(events[p].1, newId(p))
      ensures multiset(clusters[p]) == multiset(Groups(events)[p])
    {
      assert events[p] == EventFromCluster(clusters[p], newId(p));
    }
    GroupsPermuted(clusters, Groups(events));
    forall p | 0 <= p < |events|
      ensures Distinct(events[p].1)
      ensures forall t :: 0 <= t < |events[p].1| ==> events[p].1[t] in entries
    {
      DistinctByMultiset(clusters[p], events[p].1);
      forall t | 0 <= t < |events[p].1| ensures events[p].1[t] in entries {
        var x := events[p].1[t];
        assert x in multiset(clusters[p]);
        var u :| 0 <= u < |clusters[p]| && clusters[p][u] == x;
        assert x in multiset(sorted);
      }
    }
  }
}

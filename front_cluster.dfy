/** The frontend segmenter of the timeline view: feature extraction relative
    to the predecessor found through `indexOf`, the DBSCAN-like pass in which
    a cluster is checked only against finished clusters, and the events built
    from the clusters that are kept. Unlike the backend it neither sorts the
    records first nor splits at gaps of more than two hours. */
module FrontCluster {
  import opened Seqs
  import opened Text
  import opened Records
  import opened Metric
  import opened Tally
  import opened FrontModels
  import Clustering
  import ClusteringRun

  type Cosine = Clustering.Cosine

  // ---------------------------------------------------------------------
  // Features

  /** `entries.indexOf(entry)`: the first position holding the record. */
  function IndexOf(entries: seq<Entry>, e: Entry): (k: nat)
    requires e in entries
    ensures k < |entries| && entries[k] == e
    ensures forall j :: 0 <= j < k ==> entries[j] != e
  {
    if entries[0] == e then 0 else 1 + IndexOf(entries[1..], e)
  }

  /** The vector the `map` callback of `extractFeatures` computes for record i:
      relative to the record before the first occurrence of record i, and
      `[0, 0, 1, 0.5]` when there is none (`entries[-1]` is undefined). */
  function FeatureAt(entries: seq<Entry>, i: nat, cosine: Cosine): Features
    requires i < |entries|
  {
    FeatureOf(entries, entries[i], cosine)
  }

  /** The vector of a record of the list, found again through `indexOf`. */
  function FeatureOf(entries: seq<Entry>, e: Entry, cosine: Cosine): Features
    requires e in entries
  {
    var k := IndexOf(entries, e);
    if k == 0 then Features(0.0, 0.0, 1.0, 0.5)
    else
      var prev := entries[k - 1];
      Features(
        Clustering.Min((e.timestamp - prev.timestamp) as real / 3600.0, 1.0),
        if e.app != prev.app then 1.0 else 0.0,
        if e.title == prev.title then 1.0 else 0.5,
        if e.embedding.Some? && prev.embedding.Some?
        then 1.0 - cosine(e.embedding.value, prev.embedding.value) else 0.5)
  }

  /** The record of `extractFeatures`: the entry, its vector and its
      lower-cased text. */
  datatype FeaturedText = FeaturedText(entry: Entry, features: Features, text: string)

  /** `extractFeatures`: one record per entry, in input order. */
  function ExtractFeatures(entries: seq<Entry>, cosine: Cosine): (r: seq<FeaturedText>)
    ensures |r| == |entries|
    ensures forall i :: 0 <= i < |entries| ==>
      && r[i].entry == entries[i]
      && r[i].features == FeatureAt(entries, i, cosine)
      && r[i].text == Lower(entries[i].app + " " + entries[i].title + " " + entries[i].text)
  {
    seq(|entries|, i requires 0 <= i < |entries| =>
      FeaturedText(entries[i], FeatureAt(entries, i, cosine),
                   Lower(entries[i].app + " " + entries[i].title + " " + entries[i].text)))
  }

  /** What each component means when no record is listed twice: the gap in
      hours capped at 1 with no two-hour sentinel, the app change, the title
      indicator and the embedding default, all relative to record i - 1. */
  lemma FeatureFacts(entries: seq<Entry>, i: nat, cosine: Cosine)
    requires i < |entries| && Distinct(entries)
    ensures var f := FeatureAt(entries, i, cosine);
      && (i == 0 ==> f == Features(0.0, 0.0, 1.0, 0.5))
      && f.time <= 1.0
      && (i > 0 ==> f.time == Clustering.Min((entries[i].timestamp - entries[i - 1].timestamp) as real / 3600.0, 1.0))
      && (SortedByTime(entries) ==> 0.0 <= f.time)
      && (f.app == 1.0 <==> i > 0 && entries[i].app != entries[i - 1].app)
      && (f.app == 0.0 <==> i == 0 || entries[i].app == entries[i - 1].app)
      && (f.title == 1.0 <==> i == 0 || entries[i].title == entries[i - 1].title)
      && (f.title == 0.5 <==> i > 0 && entries[i].title != entries[i - 1].title)
      && (i > 0 && (entries[i].embedding.None? || entries[i - 1].embedding.None?) ==> f.embed == 0.5)
  {
    assert IndexOf(entries, entries[i]) == i;
  }

  /** A record listed a second time gets the vector of its first occurrence. */
  lemma RepeatedEntryFeatures(entries: seq<Entry>, i: nat, cosine: Cosine)
    requires i < |entries|
    ensures IndexOf(entries, entries[i]) <= i
    ensures FeatureAt(entries, i, cosine) == FeatureAt(entries, IndexOf(entries, entries[i]), cosine)
  {
    hide IndexOf, FeatureOf;
    var k := IndexOf(entries, entries[i]);
    assert entries[k] == entries[i];
  }

  /** Where the backend marks a gap of more than two hours with the sentinel
      10.0, the frontend caps it at 1.0 like any gap of an hour or more. */
  lemma NoHardSplit(entries: seq<Entry>, i: nat, cosine: Cosine)
    requires 0 < i < |entries| && Distinct(entries)
    requires entries[i].timestamp - entries[i - 1].timestamp > 7200
    ensures FeatureAt(entries, i, cosine).time == 1.0
    ensures Clustering.FeatureAt(entries, i, cosine).time == 10.0
  {
    assert IndexOf(entries, entries[i]) == i;
  }

  function EntriesOf(featureData: seq<FeaturedText>): (es: seq<Entry>)
    ensures |es| == |featureData|
    ensures forall i :: 0 <= i < |es| ==> es[i] == featureData[i].entry
  {
    seq(|featureData|, i requires 0 <= i < |featureData| => featureData[i].entry)
  }

  function VectorsOf(featureData: seq<FeaturedText>): (fs: seq<Features>)
    ensures |fs| == |featureData|
    ensures forall i :: 0 <= i < |fs| ==> fs[i] == featureData[i].features
  {
    seq(|featureData|, i requires 0 <= i < |featureData| => featureData[i].features)
  }

  // ---------------------------------------------------------------------
  // Segmentation

  /** `neighbors.push(...extra.filter(n => !neighbors.includes(n)))`. */
  function PushAbsent(neighbors: seq<nat>, extra: seq<nat>): (r: seq<nat>)
    ensures |neighbors| <= |r| && r[..|neighbors|] == neighbors
    ensures forall x :: x in r <==> x in neighbors || x in extra
    ensures Distinct(neighbors) && Distinct(extra) ==> Distinct(r)
    decreases |extra|
  {
    if extra == [] then neighbors
    else
      var init := PushAbsent(neighbors, extra[..|extra| - 1]);
      var x := extra[|extra| - 1];
      assert forall y :: y in extra <==> y in extra[..|extra| - 1] || y == x;
      if x in neighbors then init else init + [x]
  }

  /** A kept cluster as `expandCluster` leaves it: the seed first and, once
      more, where the neighbour loop reaches it; nothing else twice. */
  predicate Seeded(cluster: seq<Entry>, eps: real) {
    && |cluster| > 0
    && Distinct(cluster[1..])
    && (eps >= 0.0 ==> cluster[0] in cluster[1..])
  }

  /** The state of the neighbour loop of `expandCluster` before position k. */
  ghost predicate InnerInv(entries: seq<Entry>, fs: seq<Features>, eps: real, minSamples: int,
                           index: nat, neighbors: seq<nat>, clusters: seq<seq<Entry>>, visited0: set<nat>,
                           k: nat, nbs: seq<nat>, visited: set<nat>, cluster: seq<Entry>)
    requires |entries| == |fs|
  {
    && Clustering.NeighborsInv(fs, eps, minSamples, neighbors, nbs)
    && VisitInv(entries, clusters, visited0, k, nbs, visited, cluster)
    && index < |fs| && |cluster| > 0 && cluster[0] == entries[index]
    && PushedInv(entries, clusters, k, nbs, cluster)
    && Clustering.AnchorInv(entries, fs, eps, minSamples, cluster, nbs)
    && Clustering.ClosedOrPending(fs, entries, eps, minSamples, (visited - visited0) + {index}, clusters, cluster, nbs)
  }

  /** The points visited during this expansion are the positions already
      passed, and each of those is placed. */
  ghost predicate VisitInv(entries: seq<Entry>, clusters: seq<seq<Entry>>, visited0: set<nat>,
                           k: nat, nbs: seq<nat>, visited: set<nat>, cluster: seq<Entry>)
  {
    && k <= |nbs| && |cluster| > 0
    && visited0 <= visited && (forall v :: v in visited ==> v < |entries|)
    && (forall v :: v in visited && v !in visited0 ==> v in nbs[..k])
    && (forall t :: 0 <= t < k ==>
          nbs[t] in visited && nbs[t] < |entries| && (entries[nbs[t]] in Members(clusters) || entries[nbs[t]] in cluster[1..]))
  }

  /** After the seed, the cluster holds each point passed so far that is in no
      finished cluster, once. */
  ghost predicate PushedInv(entries: seq<Entry>, clusters: seq<seq<Entry>>, k: nat, nbs: seq<nat>, cluster: seq<Entry>)
    requires |cluster| > 0 && k <= |nbs|
    requires forall t :: 0 <= t < k ==> nbs[t] < |entries|
  {
    && Distinct(cluster[1..])
    && (forall x :: x in cluster[1..] ==>
          x !in Members(clusters) && exists t :: 0 <= t < k && x == entries[nbs[t]])
  }

  /** `expandCluster`: push the seed, then every point of the growing
      neighbour list that is in no finished cluster; report whether the
      cluster reached `minSamples`. */
  method ExpandCluster(entries: seq<Entry>, fs: seq<Features>, eps: real, minSamples: int,
                       index: nat, neighbors: seq<nat>, clusters: seq<seq<Entry>>, visited0: set<nat>)
    returns (cluster: seq<Entry>, visited: set<nat>, kept: bool)
    requires |entries| == |fs| && Distinct(entries)
    requires index < |fs| && index in visited0
    requires neighbors == Region(fs, eps, index) && |neighbors| >= minSamples
    requires forall v :: v in visited0 ==> v < |fs|
    requires forall k :: 0 <= k < |fs| && entries[k] in Members(clusters) ==> k in visited0 && k != index
    ensures kept <==> |cluster| >= minSamples
    ensures Seeded(cluster, eps) && cluster[0] == entries[index]
    ensures forall t :: 0 <= t < |cluster| ==> cluster[t] in entries && cluster[t] !in Members(clusters)
    ensures forall k :: 0 <= k < |fs| && entries[k] in cluster ==> k in visited && Clusterable(fs, eps, minSamples, k)
    ensures visited0 <= visited && forall v :: v in visited ==> v < |fs|
    ensures forall v :: v in visited && v !in visited0 ==> Reachable(fs, eps, minSamples, v)
    ensures forall v :: v in visited && v !in visited0 ==> entries[v] in Members(clusters) || entries[v] in cluster
    ensures Clustering.CoreClosed(fs, entries, eps, minSamples, (visited - visited0) + {index}, Members(clusters) + Elements(cluster))
    ensures Clustering.Anchored(entries, fs, eps, minSamples, cluster)
  {
    hide InnerInv, Clustering.NearCoreMember, Clustering.Anchored, Clustering.CoreClosed, Reachable, Clusterable,
      Seeded, Region, PushAbsent, Members, Elements;
    var n := |fs|;
    cluster := [entries[index]];
    visited := visited0;
    var nbs := neighbors;
    var k := 0;
    ExpandStart(entries, fs, eps, minSamples, index, neighbors, clusters, visited0);
    while k < |nbs|
      invariant InnerInv(entries, fs, eps, minSamples, index, neighbors, clusters, visited0, k, nbs, visited, cluster)
      decreases n - k
    {
      InnerShape(entries, fs, eps, minSamples, index, neighbors, clusters, visited0, k, nbs, visited, cluster);
      var j := nbs[k];
      var nbs1, visited1 := nbs, visited;
      if j !in visited {
        visited1 := visited + {j};
        var nn := RegionQuery(fs, eps, j);
        if |nn| >= minSamples {
          IncreasingDistinct(nn);
          nbs1 := PushAbsent(nbs, nn);
        }
      }
      var inAny := Clustering.InAnyCluster(clusters, entries[j]);
      var cluster1 := cluster;
      if !inAny {
        cluster1 := cluster + [entries[j]];
      }
      InnerStep(entries, fs, eps, minSamples, index, neighbors, clusters, visited0,
                k, nbs, visited, cluster, nbs1, visited1, cluster1);
      nbs, visited, cluster := nbs1, visited1, cluster1;
      k := k + 1;
    }
    InnerShape(entries, fs, eps, minSamples, index, neighbors, clusters, visited0, k, nbs, visited, cluster);
    ExpandEnd(entries, fs, eps, minSamples, index, neighbors, clusters, visited0, nbs, visited, cluster);
    kept := |cluster| >= minSamples;
  }

  lemma ExpandStart(entries: seq<Entry>, fs: seq<Features>, eps: real, minSamples: int,
                    index: nat, neighbors: seq<nat>, clusters: seq<seq<Entry>>, visited0: set<nat>)
    requires |entries| == |fs| && Distinct(entries)
    requires index < |fs| && index in visited0
    requires neighbors == Region(fs, eps, index) && |neighbors| >= minSamples
    requires forall v :: v in visited0 ==> v < |fs|
    ensures InnerInv(entries, fs, eps, minSamples, index, neighbors, clusters, visited0, 0, neighbors, visited0, [entries[index]])
  {
    var n := |fs|;
    IncreasingDistinct(neighbors);
    DistinctBounded(neighbors, n);
    Clustering.ReachableByCore(fs, eps, minSamples, index, neighbors);
    StartAnchor(entries, fs, eps, minSamples, index, neighbors);
    StartClosed(entries, fs, eps, minSamples, index, neighbors, clusters);
    assert (visited0 - visited0) + {index} == {index};
  }

  /** The seed is a core point and its neighbourhood lies next to it. */
  lemma StartAnchor(entries: seq<Entry>, fs: seq<Features>, eps: real, minSamples: int, index: nat, neighbors: seq<nat>)
    requires |entries| == |fs| && Distinct(entries)
    requires index < |fs| && neighbors == Region(fs, eps, index) && |neighbors| >= minSamples
    ensures Clustering.AnchorInv(entries, fs, eps, minSamples, [entries[index]], neighbors)
  {
    var n := |fs|;
    forall j | 0 <= j < n && entries[j] in [entries[index]] ensures IsCore(fs, eps, minSamples, j) {
      assert entries[j] == entries[index];
      assert j == index;
    }
    forall t | 0 <= t < |neighbors| && neighbors[t] < n
      ensures Clustering.NearCoreMember(entries, fs, eps, minSamples, [entries[index]], neighbors[t])
    {
      assert entries[index] in [entries[index]];
      assert Near(fs[index], fs[neighbors[t]], eps);
    }
  }

  /** The seed's neighbourhood is the neighbour list the loop starts from. */
  lemma StartClosed(entries: seq<Entry>, fs: seq<Features>, eps: real, minSamples: int,
                    index: nat, neighbors: seq<nat>, clusters: seq<seq<Entry>>)
    requires |entries| == |fs|
    requires index < |fs| && neighbors == Region(fs, eps, index)
    ensures Clustering.ClosedOrPending(fs, entries, eps, minSamples, {index}, clusters, [entries[index]], neighbors)
  {
  }

  /** What the neighbour loop needs of its state to take a step. */
  lemma InnerShape(entries: seq<Entry>, fs: seq<Features>, eps: real, minSamples: int,
                   index: nat, neighbors: seq<nat>, clusters: seq<seq<Entry>>, visited0: set<nat>,
                   k: nat, nbs: seq<nat>, visited: set<nat>, cluster: seq<Entry>)
    requires |entries| == |fs|
    requires InnerInv(entries, fs, eps, minSamples, index, neighbors, clusters, visited0, k, nbs, visited, cluster)
    ensures k <= |nbs| <= |fs| && Distinct(nbs)
    ensures forall t :: 0 <= t < |nbs| ==> nbs[t] < |fs|
  {
  }

  /** One pass of the neighbour loop keeps its state. */
  lemma InnerStep(entries: seq<Entry>, fs: seq<Features>, eps: real, minSamples: int,
                  index: nat, neighbors: seq<nat>, clusters: seq<seq<Entry>>, visited0: set<nat>,
                  k: nat, nbs: seq<nat>, visited: set<nat>, cluster: seq<Entry>,
                  nbs1: seq<nat>, visited1: set<nat>, cluster1: seq<Entry>)
    requires |entries| == |fs| && Distinct(entries)
    requires InnerInv(entries, fs, eps, minSamples, index, neighbors, clusters, visited0, k, nbs, visited, cluster)
    requires k < |nbs| && nbs[k] < |fs|
    requires visited1 == visited + {nbs[k]}
    requires |nbs| <= |nbs1| && nbs1[..|nbs|] == nbs && Distinct(nbs1)
    requires forall x :: x in nbs1 <==>
      (x in nbs || (nbs[k] !in visited && IsCore(fs, eps, minSamples, nbs[k]) && x in Region(fs, eps, nbs[k])))
    requires cluster1 == if entries[nbs[k]] in Members(clusters) then cluster else cluster + [entries[nbs[k]]]
    requires forall k' :: 0 <= k' < |fs| && entries[k'] in Members(clusters) ==> k' in visited0
    ensures InnerInv(entries, fs, eps, minSamples, index, neighbors, clusters, visited0, k + 1, nbs1, visited1, cluster1)
  {
    hide Clustering.NearCoreMember, Clustering.Anchored, Clustering.ClosedOrPending, Reachable, Clusterable, IsCore;
    var j := nbs[k];
    assert j in nbs;
    Clustering.StepNeighbors(fs, eps, minSamples, neighbors, nbs, nbs1, j, visited);
    StepVisit(entries, clusters, visited0, k, nbs, visited, cluster, nbs1, visited1, cluster1);
    StepPushed(entries, clusters, k, nbs, cluster, nbs1, cluster1);
    Clustering.StepAnchor(entries, fs, eps, minSamples, clusters, visited, cluster, nbs, j, nbs1, cluster1);
    var V := (visited - visited0) + {index};
    StepClosed(entries, fs, eps, minSamples, clusters, V, visited, cluster, nbs, j, nbs1, cluster1);
    assert (visited1 - visited0) + {index} == if j in visited then V else V + {j};
  }

  /** The neighbourhood of a core point first visited now is appended to the
      neighbour list, so it counts as pending. */
  lemma StepClosed(entries: seq<Entry>, fs: seq<Features>, eps: real, minSamples: int,
                   clusters: seq<seq<Entry>>, V: set<nat>, visited: set<nat>, cluster: seq<Entry>,
                   nbs: seq<nat>, j: nat, nbs1: seq<nat>, cluster1: seq<Entry>)
    requires |entries| == |fs|
    requires Clustering.ClosedOrPending(fs, entries, eps, minSamples, V, clusters, cluster, nbs)
    requires j < |fs|
    requires forall x :: x in nbs1 <==>
      (x in nbs || (j !in visited && IsCore(fs, eps, minSamples, j) && x in Region(fs, eps, j)))
    requires forall x :: x in cluster ==> x in cluster1
    ensures Clustering.ClosedOrPending(fs, entries, eps, minSamples, if j in visited then V else V + {j}, clusters, cluster1, nbs1)
  {
    var V1 := if j in visited then V else V + {j};
    forall m, j' | m in V1 && m < |fs| && 0 <= j' < |fs| && IsCore(fs, eps, minSamples, m) && Near(fs[m], fs[j'], eps)
      ensures entries[j'] in Members(clusters) || entries[j'] in cluster1 || j' in nbs1
    {
      if m == j && j !in visited {
        assert j' in Region(fs, eps, j);
      }
    }
  }

  lemma StepVisit(entries: seq<Entry>, clusters: seq<seq<Entry>>, visited0: set<nat>,
                  k: nat, nbs: seq<nat>, visited: set<nat>, cluster: seq<Entry>,
                  nbs1: seq<nat>, visited1: set<nat>, cluster1: seq<Entry>)
    requires VisitInv(entries, clusters, visited0, k, nbs, visited, cluster)
    requires k < |nbs| && nbs[k] < |entries| && |cluster| > 0
    requires visited1 == visited + {nbs[k]}
    requires |nbs| <= |nbs1| && nbs1[..|nbs|] == nbs
    requires cluster1 == if entries[nbs[k]] in Members(clusters) then cluster else cluster + [entries[nbs[k]]]
    ensures VisitInv(entries, clusters, visited0, k + 1, nbs1, visited1, cluster1)
  {
    assert nbs1[..k + 1] == nbs[..k] + [nbs[k]];
    assert forall t :: 0 <= t < |nbs| ==> nbs1[t] == nbs[t];
    if entries[nbs[k]] !in Members(clusters) {
      assert cluster1[1..] == cluster[1..] + [entries[nbs[k]]];
    }
  }

  lemma StepPushed(entries: seq<Entry>, clusters: seq<seq<Entry>>, k: nat, nbs: seq<nat>, cluster: seq<Entry>,
                   nbs1: seq<nat>, cluster1: seq<Entry>)
    requires Distinct(entries) && Distinct(nbs) && |cluster| > 0
    requires k < |nbs| && forall t :: 0 <= t < |nbs| ==> nbs[t] < |entries|
    requires PushedInv(entries, clusters, k, nbs, cluster)
    requires |nbs| <= |nbs1| && nbs1[..|nbs|] == nbs
    requires cluster1 == if entries[nbs[k]] in Members(clusters) then cluster else cluster + [entries[nbs[k]]]
    ensures forall t :: 0 <= t < k + 1 ==> nbs1[t] < |entries|
    ensures PushedInv(entries, clusters, k + 1, nbs1, cluster1)
  {
    var j := nbs[k];
    assert forall t :: 0 <= t < |nbs| ==> nbs1[t] == nbs[t];
    if entries[j] !in Members(clusters) {
      assert cluster1[1..] == cluster[1..] + [entries[j]];
      forall t | 0 <= t < k ensures entries[nbs[t]] != entries[j] {
        assert nbs[t] != j;
      }
      assert entries[j] !in cluster[1..];
    }
  }

  /** The state when the neighbour list is used up gives what `expandCluster` promises. */
  lemma ExpandEnd(entries: seq<Entry>, fs: seq<Features>, eps: real, minSamples: int,
                  index: nat, neighbors: seq<nat>, clusters: seq<seq<Entry>>, visited0: set<nat>,
                  nbs: seq<nat>, visited: set<nat>, cluster: seq<Entry>)
    requires |entries| == |fs| && Distinct(entries)
    requires index < |fs| && index in visited0
    requires neighbors == Region(fs, eps, index) && |neighbors| >= minSamples
    requires forall k :: 0 <= k < |fs| && entries[k] in Members(clusters) ==> k in visited0 && k != index
    requires InnerInv(entries, fs, eps, minSamples, index, neighbors, clusters, visited0, |nbs|, nbs, visited, cluster)
    ensures Seeded(cluster, eps)
    ensures forall t :: 0 <= t < |cluster| ==> cluster[t] in entries && cluster[t] !in Members(clusters)
    ensures forall k :: 0 <= k < |fs| && entries[k] in cluster ==> k in visited && Clusterable(fs, eps, minSamples, k)
    ensures forall v :: v in visited && v !in visited0 ==> Reachable(fs, eps, minSamples, v)
    ensures forall v :: v in visited && v !in visited0 ==> entries[v] in Members(clusters) || entries[v] in cluster
    ensures Clustering.CoreClosed(fs, entries, eps, minSamples, (visited - visited0) + {index}, Members(clusters) + Elements(cluster))
    ensures Clustering.Anchored(entries, fs, eps, minSamples, cluster)
    ensures visited0 <= visited && forall v :: v in visited ==> v < |fs|
    ensures cluster[0] == entries[index]
  {
    hide InnerInv;
    EndClosed(entries, fs, eps, minSamples, index, neighbors, clusters, visited0, nbs, visited, cluster);
    EndSeeded(entries, fs, eps, minSamples, index, neighbors, clusters, visited0, nbs, visited, cluster);
    EndPlaced(entries, fs, eps, minSamples, index, neighbors, clusters, visited0, nbs, visited, cluster);
    EndClusterable(entries, fs, eps, minSamples, index, neighbors, clusters, visited0, nbs, visited, cluster);
    EndReachable(entries, fs, eps, minSamples, index, neighbors, clusters, visited0, nbs, visited, cluster);
  }

  /** Every point this expansion visited is placed, the neighbourhood of each
      core point among them (the seed included) is placed, and the cluster is
      anchored. */
  lemma EndClosed(entries: seq<Entry>, fs: seq<Features>, eps: real, minSamples: int,
                  index: nat, neighbors: seq<nat>, clusters: seq<seq<Entry>>, visited0: set<nat>,
                  nbs: seq<nat>, visited: set<nat>, cluster: seq<Entry>)
    requires |entries| == |fs|
    requires InnerInv(entries, fs, eps, minSamples, index, neighbors, clusters, visited0, |nbs|, nbs, visited, cluster)
    ensures forall v :: v in visited && v !in visited0 ==> entries[v] in Members(clusters) || entries[v] in cluster
    ensures Clustering.CoreClosed(fs, entries, eps, minSamples, (visited - visited0) + {index}, Members(clusters) + Elements(cluster))
    ensures Clustering.Anchored(entries, fs, eps, minSamples, cluster)
    ensures visited0 <= visited && forall v :: v in visited ==> v < |fs|
    ensures cluster[0] == entries[index]
  {
    EndVisitPlaced(entries, clusters, visited0, nbs, visited, cluster);
    EndCoreClosed(entries, fs, eps, minSamples, clusters, (visited - visited0) + {index}, visited0, nbs, visited, cluster);
  }

  lemma EndVisitPlaced(entries: seq<Entry>, clusters: seq<seq<Entry>>, visited0: set<nat>,
                       nbs: seq<nat>, visited: set<nat>, cluster: seq<Entry>)
    requires VisitInv(entries, clusters, visited0, |nbs|, nbs, visited, cluster)
    ensures forall v :: v in visited && v !in visited0 ==> entries[v] in Members(clusters) || entries[v] in cluster
  {
    assert nbs[..|nbs|] == nbs;
    forall v | v in visited && v !in visited0
      ensures entries[v] in Members(clusters) || entries[v] in cluster
    {
      var t :| 0 <= t < |nbs| && nbs[t] == v;
      if entries[v] !in Members(clusters) {
        assert entries[v] in cluster[1..];
      }
    }
  }

  lemma EndCoreClosed(entries: seq<Entry>, fs: seq<Features>, eps: real, minSamples: int,
                      clusters: seq<seq<Entry>>, V: set<nat>, visited0: set<nat>,
                      nbs: seq<nat>, visited: set<nat>, cluster: seq<Entry>)
    requires |entries| == |fs|
    requires VisitInv(entries, clusters, visited0, |nbs|, nbs, visited, cluster)
    requires Clustering.ClosedOrPending(fs, entries, eps, minSamples, V, clusters, cluster, nbs)
    ensures Clustering.CoreClosed(fs, entries, eps, minSamples, V, Members(clusters) + Elements(cluster))
  {
    var n := |fs|;
    ElementsIn(cluster);
    forall m, j | m in V && m < n && 0 <= j < n && IsCore(fs, eps, minSamples, m) && Near(fs[m], fs[j], eps)
      ensures entries[j] in Members(clusters) + Elements(cluster)
    {
      if j in nbs {
        var t :| 0 <= t < |nbs| && nbs[t] == j;
        assert entries[j] in cluster[1..] ==> entries[j] in cluster;
      }
    }
  }

  /** The seed heads the cluster and, for a non-negative radius, comes again. */
  lemma EndSeeded(entries: seq<Entry>, fs: seq<Features>, eps: real, minSamples: int,
                  index: nat, neighbors: seq<nat>, clusters: seq<seq<Entry>>, visited0: set<nat>,
                  nbs: seq<nat>, visited: set<nat>, cluster: seq<Entry>)
    requires |entries| == |fs| && Distinct(entries)
    requires index < |fs| && index in visited0
    requires neighbors == Region(fs, eps, index) && |neighbors| >= minSamples
    requires forall k :: 0 <= k < |fs| && entries[k] in Members(clusters) ==> k in visited0 && k != index
    requires InnerInv(entries, fs, eps, minSamples, index, neighbors, clusters, visited0, |nbs|, nbs, visited, cluster)
    ensures Seeded(cluster, eps)
  {
    assert nbs[..|nbs|] == nbs;
    if eps >= 0.0 {
      RegionHasSelf(fs, eps, index);
      var t :| 0 <= t < |nbs| && nbs[t] == index;
      assert entries[index] !in Members(clusters);
    }
  }

  /** Every member is a record of the input that no finished cluster holds. */
  lemma EndPlaced(entries: seq<Entry>, fs: seq<Features>, eps: real, minSamples: int,
                  index: nat, neighbors: seq<nat>, clusters: seq<seq<Entry>>, visited0: set<nat>,
                  nbs: seq<nat>, visited: set<nat>, cluster: seq<Entry>)
    requires |entries| == |fs| && Distinct(entries)
    requires index < |fs| && index in visited0
    requires neighbors == Region(fs, eps, index) && |neighbors| >= minSamples
    requires forall k :: 0 <= k < |fs| && entries[k] in Members(clusters) ==> k in visited0 && k != index
    requires InnerInv(entries, fs, eps, minSamples, index, neighbors, clusters, visited0, |nbs|, nbs, visited, cluster)
    ensures forall t :: 0 <= t < |cluster| ==> cluster[t] in entries && cluster[t] !in Members(clusters)
  {
    assert nbs[..|nbs|] == nbs;
    assert entries[index] !in Members(clusters);
    forall t | 0 <= t < |cluster| ensures cluster[t] in entries && cluster[t] !in Members(clusters) {
      if t > 0 {
        assert cluster[t] in cluster[1..];
      }
    }
  }

  /** Every member is a visited point that DBSCAN places in some cluster. */
  lemma EndClusterable(entries: seq<Entry>, fs: seq<Features>, eps: real, minSamples: int,
                       index: nat, neighbors: seq<nat>, clusters: seq<seq<Entry>>, visited0: set<nat>,
                       nbs: seq<nat>, visited: set<nat>, cluster: seq<Entry>)
    requires |entries| == |fs| && Distinct(entries)
    requires index < |fs| && index in visited0
    requires neighbors == Region(fs, eps, index) && |neighbors| >= minSamples
    requires forall k :: 0 <= k < |fs| && entries[k] in Members(clusters) ==> k in visited0 && k != index
    requires InnerInv(entries, fs, eps, minSamples, index, neighbors, clusters, visited0, |nbs|, nbs, visited, cluster)
    ensures forall k :: 0 <= k < |fs| && entries[k] in cluster ==> k in visited && Clusterable(fs, eps, minSamples, k)
  {
    assert nbs[..|nbs|] == nbs;
    forall k | 0 <= k < |fs| && entries[k] in cluster
      ensures k in visited && Clusterable(fs, eps, minSamples, k)
    {
      if entries[k] == cluster[0] {
        assert k == index;
        assert IsCore(fs, eps, minSamples, k);
      } else {
        var t :| 0 <= t < |cluster| && cluster[t] == entries[k];
        assert cluster[t] in cluster[1..];
        var u :| 0 <= u < |nbs| && entries[k] == entries[nbs[u]];
        assert k == nbs[u];
      }
    }
  }

  /** Every point this expansion visited is reachable from a core point. */
  lemma EndReachable(entries: seq<Entry>, fs: seq<Features>, eps: real, minSamples: int,
                     index: nat, neighbors: seq<nat>, clusters: seq<seq<Entry>>, visited0: set<nat>,
                     nbs: seq<nat>, visited: set<nat>, cluster: seq<Entry>)
    requires |entries| == |fs| && Distinct(entries)
    requires index < |fs| && index in visited0
    requires neighbors == Region(fs, eps, index) && |neighbors| >= minSamples
    requires forall k :: 0 <= k < |fs| && entries[k] in Members(clusters) ==> k in visited0 && k != index
    requires InnerInv(entries, fs, eps, minSamples, index, neighbors, clusters, visited0, |nbs|, nbs, visited, cluster)
    ensures forall v :: v in visited && v !in visited0 ==> Reachable(fs, eps, minSamples, v)
  {
    assert nbs[..|nbs|] == nbs;
    forall v | v in visited && v !in visited0 ensures Reachable(fs, eps, minSamples, v) {
      var t :| 0 <= t < |nbs| && nbs[t] == v;
    }
  }

  /** The state of the main loop of `clusterEntries` before point i. */
  ghost predicate OuterInv(entries: seq<Entry>, fs: seq<Features>, eps: real, minSamples: int,
                           i: nat, visited: set<nat>, clusters: seq<seq<Entry>>, noise: set<nat>)
    requires |entries| == |fs|
  {
    var n := |fs|;
    && i <= n
    && (forall k :: 0 <= k < i ==> k in visited)
    && (forall v :: v in visited ==> v < n)
    && (forall v :: v in visited && v >= i ==> Reachable(fs, eps, minSamples, v))
    && (forall p :: 0 <= p < |clusters| ==> Seeded(clusters[p], eps) && |clusters[p]| >= minSamples)
    && PairwiseDisjoint(clusters)
    && Members(clusters) <= Elements(entries)
    && (forall k :: 0 <= k < n && entries[k] in Members(clusters) ==> k in visited && Clusterable(fs, eps, minSamples, k))
    && (forall v :: v in noise ==> v < n && !IsCore(fs, eps, minSamples, v))
    && (forall k :: 0 <= k < i && !Clusterable(fs, eps, minSamples, k) ==> k in noise)
    && Clustering.CoreAnchored(entries, fs, eps, minSamples, clusters)
    && (KeepsAll(eps, minSamples) ==> AllKeptInv(entries, fs, eps, minSamples, visited, clusters))
  }

  /** With a non-negative radius the seed is pushed a second time, so every
      cluster has at least two entries; with `minSamples <= 2` none is then
      dropped. The defaults `eps = 0.3` and `minSamples = 2` are such. */
  predicate KeepsAll(eps: real, minSamples: int) {
    eps >= 0.0 && minSamples <= 2
  }

  /** When no cluster is dropped, the main loop keeps what the backend's does:
      visited core points are clustered with their whole neighbourhood, and
      no cluster claims a point next to a core member of an earlier one. */
  ghost predicate AllKeptInv(entries: seq<Entry>, fs: seq<Features>, eps: real, minSamples: int,
                             visited: set<nat>, clusters: seq<seq<Entry>>)
    requires |entries| == |fs|
  {
    && Clustering.CoreClosed(fs, entries, eps, minSamples, visited, Members(clusters))
    && (forall v :: v in visited && v < |fs| && IsCore(fs, eps, minSamples, v) ==> entries[v] in Members(clusters))
    && Clustering.NoLaterClaim(entries, fs, eps, minSamples, clusters)
  }

  /** The main loop of `clusterEntries` over the feature records: the kept
      clusters in order of their seeds, and the noise set. */
  method Segment(entries: seq<Entry>, fs: seq<Features>, eps: real, minSamples: int)
    returns (clusters: seq<seq<Entry>>, noise: set<nat>)
    requires |entries| == |fs| && Distinct(entries)
    ensures forall p :: 0 <= p < |clusters| ==> Seeded(clusters[p], eps) && |clusters[p]| >= minSamples
    ensures PairwiseDisjoint(clusters)
    ensures forall p, t :: 0 <= p < |clusters| && 0 <= t < |clusters[p]| ==> clusters[p][t] in entries
    ensures forall k :: 0 <= k < |fs| && entries[k] in Members(clusters) ==> Clusterable(fs, eps, minSamples, k)
    ensures forall k :: k in noise ==> k < |fs| && !IsCore(fs, eps, minSamples, k)
    ensures forall k :: 0 <= k < |fs| && !Clusterable(fs, eps, minSamples, k) ==> k in noise
    ensures Clustering.CoreAnchored(entries, fs, eps, minSamples, clusters)
    ensures KeepsAll(eps, minSamples) ==>
      && Clustering.CoreLinked(entries, fs, eps, minSamples, clusters)
      && Clustering.NoLaterClaim(entries, fs, eps, minSamples, clusters)
      && forall k :: 0 <= k < |fs| && Clusterable(fs, eps, minSamples, k) ==> entries[k] in Members(clusters)
  {
    hide OuterInv, Clusterable, Clustering.CoreAnchored, Clustering.CoreLinked, Clustering.NoLaterClaim, Clustering.CoreClosed;
    var n := |fs|;
    clusters := [];
    noise := {};
    var visited: set<nat> := {};
    SegmentStart(entries, fs, eps, minSamples);
    var i := 0;
    while i < n
      invariant 0 <= i <= n
      invariant OuterInv(entries, fs, eps, minSamples, i, visited, clusters, noise)
    {
      if i !in visited {
        var neighbors := RegionQuery(fs, eps, i);
        if |neighbors| < minSamples {
          NoiseStep(entries, fs, eps, minSamples, i, visited, clusters, noise);
          visited := visited + {i};
          noise := noise + {i};
        } else {
          ExpandReady(entries, fs, eps, minSamples, i, visited, clusters, noise);
          var cluster, visited1, kept := ExpandCluster(entries, fs, eps, minSamples, i, neighbors, clusters, visited + {i});
          var clusters1 := if kept then clusters + [cluster] else clusters;
          ExpandStep(entries, fs, eps, minSamples, i, visited, clusters, noise, cluster, visited1, clusters1);
          clusters, visited := clusters1, visited1;
        }
      } else {
        SkipStep(entries, fs, eps, minSamples, i, visited, clusters, noise);
      }
      i := i + 1;
    }
    SegmentEnd(entries, fs, eps, minSamples, visited, clusters, noise);
  }

  /** Before the first point, nothing is visited, clustered or noise. */
  lemma SegmentStart(entries: seq<Entry>, fs: seq<Features>, eps: real, minSamples: int)
    requires |entries| == |fs|
    ensures OuterInv(entries, fs, eps, minSamples, 0, {}, [], {})
  {
  }

  /** The main-loop state before an unvisited point gives what an expansion
      from it needs. */
  lemma ExpandReady(entries: seq<Entry>, fs: seq<Features>, eps: real, minSamples: int,
                    i: nat, visited: set<nat>, clusters: seq<seq<Entry>>, noise: set<nat>)
    requires |entries| == |fs| && i < |fs| && i !in visited
    requires OuterInv(entries, fs, eps, minSamples, i, visited, clusters, noise)
    ensures forall v :: v in visited + {i} ==> v < |fs|
    ensures forall k :: 0 <= k < |fs| && entries[k] in Members(clusters) ==> k in visited + {i} && k != i
  {
  }

  /** Once every point is visited, the main-loop state gives the outcome of
      the pass. */
  lemma SegmentEnd(entries: seq<Entry>, fs: seq<Features>, eps: real, minSamples: int,
                   visited: set<nat>, clusters: seq<seq<Entry>>, noise: set<nat>)
    requires |entries| == |fs|
    requires OuterInv(entries, fs, eps, minSamples, |fs|, visited, clusters, noise)
    ensures forall p :: 0 <= p < |clusters| ==> Seeded(clusters[p], eps) && |clusters[p]| >= minSamples
    ensures PairwiseDisjoint(clusters)
    ensures forall p, t :: 0 <= p < |clusters| && 0 <= t < |clusters[p]| ==> clusters[p][t] in entries
    ensures forall k :: 0 <= k < |fs| && entries[k] in Members(clusters) ==> Clusterable(fs, eps, minSamples, k)
    ensures forall k :: k in noise ==> k < |fs| && !IsCore(fs, eps, minSamples, k)
    ensures forall k :: 0 <= k < |fs| && !Clusterable(fs, eps, minSamples, k) ==> k in noise
    ensures Clustering.CoreAnchored(entries, fs, eps, minSamples, clusters)
    ensures KeepsAll(eps, minSamples) ==>
      && Clustering.CoreLinked(entries, fs, eps, minSamples, clusters)
      && Clustering.NoLaterClaim(entries, fs, eps, minSamples, clusters)
      && forall k :: 0 <= k < |fs| && Clusterable(fs, eps, minSamples, k) ==> entries[k] in Members(clusters)
  {
    if KeepsAll(eps, minSamples) {
      AllKeptEnd(entries, fs, eps, minSamples, visited, clusters);
    }
    forall p, t | 0 <= p < |clusters| && 0 <= t < |clusters[p]|
      ensures clusters[p][t] in entries
    {
      MembersAt(clusters, clusters[p][t]);
      ElementsIn(entries);
    }
  }

  /** When every point is visited and no cluster was dropped, near core points
      share their cluster and every clusterable point is clustered. */
  lemma AllKeptEnd(entries: seq<Entry>, fs: seq<Features>, eps: real, minSamples: int,
                   visited: set<nat>, clusters: seq<seq<Entry>>)
    requires |entries| == |fs|
    requires forall k :: 0 <= k < |fs| ==> k in visited
    requires PairwiseDisjoint(clusters)
    requires forall k :: 0 <= k < |fs| && entries[k] in Members(clusters) ==> k in visited
    requires AllKeptInv(entries, fs, eps, minSamples, visited, clusters)
    ensures Clustering.CoreLinked(entries, fs, eps, minSamples, clusters)
    ensures forall k :: 0 <= k < |fs| && Clusterable(fs, eps, minSamples, k) ==> entries[k] in Members(clusters)
  {
    Clustering.LinkedByClaim(entries, fs, eps, minSamples, visited, clusters);
    forall k | 0 <= k < |fs| && Clusterable(fs, eps, minSamples, k) ensures entries[k] in Members(clusters) {
      if !IsCore(fs, eps, minSamples, k) {
        var m :| 0 <= m < |fs| && IsCore(fs, eps, minSamples, m) && Near(fs[m], fs[k], eps);
        assert m in visited;
      }
    }
  }

  /** A point an earlier expansion visited is passed over. */
  lemma SkipStep(entries: seq<Entry>, fs: seq<Features>, eps: real, minSamples: int,
                 i: nat, visited: set<nat>, clusters: seq<seq<Entry>>, noise: set<nat>)
    requires |entries| == |fs| && i < |fs| && i in visited
    requires OuterInv(entries, fs, eps, minSamples, i, visited, clusters, noise)
    ensures OuterInv(entries, fs, eps, minSamples, i + 1, visited, clusters, noise)
  {
  }

  /** A point with too few neighbours becomes noise; it is not a core point. */
  lemma NoiseStep(entries: seq<Entry>, fs: seq<Features>, eps: real, minSamples: int,
                  i: nat, visited: set<nat>, clusters: seq<seq<Entry>>, noise: set<nat>)
    requires |entries| == |fs| && i < |fs| && i !in visited
    requires !IsCore(fs, eps, minSamples, i)
    requires OuterInv(entries, fs, eps, minSamples, i, visited, clusters, noise)
    ensures OuterInv(entries, fs, eps, minSamples, i + 1, visited + {i}, clusters, noise + {i})
  {
  }

  /** A finished expansion from the core point i keeps the main-loop state,
      whether its cluster is kept or dropped. */
  lemma ExpandStep(entries: seq<Entry>, fs: seq<Features>, eps: real, minSamples: int,
                   i: nat, visited: set<nat>, clusters: seq<seq<Entry>>, noise: set<nat>,
                   cluster: seq<Entry>, visited1: set<nat>, clusters1: seq<seq<Entry>>)
    requires |entries| == |fs| && i < |fs| && i !in visited
    requires IsCore(fs, eps, minSamples, i)
    requires OuterInv(entries, fs, eps, minSamples, i, visited, clusters, noise)
    requires Seeded(cluster, eps)
    requires forall t :: 0 <= t < |cluster| ==> cluster[t] in entries && cluster[t] !in Members(clusters)
    requires forall k :: 0 <= k < |fs| && entries[k] in cluster ==> k in visited1 && Clusterable(fs, eps, minSamples, k)
    requires visited + {i} <= visited1 && forall v :: v in visited1 ==> v < |fs|
    requires forall v :: v in visited1 && v !in visited + {i} ==> Reachable(fs, eps, minSamples, v)
    requires clusters1 == if |cluster| >= minSamples then clusters + [cluster] else clusters
    requires forall v :: v in visited1 && v !in visited + {i} ==> entries[v] in Members(clusters) || entries[v] in cluster
    requires Clustering.CoreClosed(fs, entries, eps, minSamples, (visited1 - (visited + {i})) + {i},
                                   Members(clusters) + Elements(cluster))
    requires Clustering.Anchored(entries, fs, eps, minSamples, cluster)
    requires cluster[0] == entries[i]
    ensures OuterInv(entries, fs, eps, minSamples, i + 1, visited1, clusters1, noise)
  {
    if |cluster| >= minSamples {
      KeepStep(entries, fs, eps, minSamples, i, visited, clusters, noise, cluster, visited1);
      Clustering.AnchorStep(entries, fs, eps, minSamples, clusters, cluster);
    }
    VisitedStep(fs, eps, minSamples, i, visited, noise, visited1);
    if KeepsAll(eps, minSamples) {
      assert cluster[0] in cluster[1..];
      AllKeptStep(entries, fs, eps, minSamples, i, visited, clusters, cluster, visited1);
    }
  }

  /** With no cluster dropped, a finished expansion keeps the backend's facts. */
  lemma AllKeptStep(entries: seq<Entry>, fs: seq<Features>, eps: real, minSamples: int,
                    i: nat, visited: set<nat>, clusters: seq<seq<Entry>>, cluster: seq<Entry>, visited1: set<nat>)
    requires |entries| == |fs| && i < |fs|
    requires AllKeptInv(entries, fs, eps, minSamples, visited, clusters)
    requires forall k :: 0 <= k < |fs| && entries[k] in Members(clusters) ==> k in visited
    requires forall t :: 0 <= t < |cluster| ==> cluster[t] !in Members(clusters)
    requires |cluster| > 0 && cluster[0] == entries[i]
    requires visited + {i} <= visited1 && forall v :: v in visited1 ==> v < |fs|
    requires forall v :: v in visited1 && v !in visited + {i} ==> entries[v] in Members(clusters) || entries[v] in cluster
    requires Clustering.CoreClosed(fs, entries, eps, minSamples, (visited1 - (visited + {i})) + {i},
                                   Members(clusters) + Elements(cluster))
    ensures AllKeptInv(entries, fs, eps, minSamples, visited1, clusters + [cluster])
  {
    var cs := clusters + [cluster];
    MembersSnoc(clusters, cluster);
    ElementsIn(cluster);
    assert Members(cs) == Members(clusters) + Elements(cluster);
    var V := (visited1 - (visited + {i})) + {i};
    forall m, j | m in visited1 && m < |fs| && 0 <= j < |fs| && IsCore(fs, eps, minSamples, m) && Near(fs[m], fs[j], eps)
      ensures entries[j] in Members(cs)
    {
      if m !in visited {
        assert m in V;
      }
    }
    Clustering.ClaimStep(entries, fs, eps, minSamples, visited, clusters, cluster);
  }

  /** What an expansion from the core point i does to the visited points and
      the noise that the main loop keeps track of. */
  lemma VisitedStep(fs: seq<Features>, eps: real, minSamples: int,
                    i: nat, visited: set<nat>, noise: set<nat>, visited1: set<nat>)
    requires i < |fs| && IsCore(fs, eps, minSamples, i)
    requires forall k :: 0 <= k < i ==> k in visited
    requires forall v :: v in visited ==> v < |fs|
    requires forall v :: v in visited && v >= i ==> Reachable(fs, eps, minSamples, v)
    requires forall k :: 0 <= k < i && !Clusterable(fs, eps, minSamples, k) ==> k in noise
    requires visited + {i} <= visited1 && forall v :: v in visited1 ==> v < |fs|
    requires forall v :: v in visited1 && v !in visited + {i} ==> Reachable(fs, eps, minSamples, v)
    ensures forall k :: 0 <= k < i + 1 ==> k in visited1
    ensures forall v :: v in visited1 && v >= i + 1 ==> Reachable(fs, eps, minSamples, v)
    ensures forall k :: 0 <= k < i + 1 && !Clusterable(fs, eps, minSamples, k) ==> k in noise
  {
    forall k | 0 <= k < i + 1 && !Clusterable(fs, eps, minSamples, k) ensures k in noise {
      assert k != i;
    }
  }

  /** Appending a kept cluster keeps the main-loop facts about clusters. */
  lemma KeepStep(entries: seq<Entry>, fs: seq<Features>, eps: real, minSamples: int,
                 i: nat, visited: set<nat>, clusters: seq<seq<Entry>>, noise: set<nat>,
                 cluster: seq<Entry>, visited1: set<nat>)
    requires |entries| == |fs| && i < |fs|
    requires OuterInv(entries, fs, eps, minSamples, i, visited, clusters, noise)
    requires Seeded(cluster, eps) && |cluster| >= minSamples
    requires forall t :: 0 <= t < |cluster| ==> cluster[t] in entries && cluster[t] !in Members(clusters)
    requires forall k :: 0 <= k < |fs| && entries[k] in cluster ==> k in visited1 && Clusterable(fs, eps, minSamples, k)
    requires visited <= visited1
    ensures var cs := clusters + [cluster];
      && (forall p :: 0 <= p < |cs| ==> Seeded(cs[p], eps) && |cs[p]| >= minSamples)
      && PairwiseDisjoint(cs)
      && Members(cs) <= Elements(entries)
      && (forall k :: 0 <= k < |fs| && entries[k] in Members(cs) ==> k in visited1 && Clusterable(fs, eps, minSamples, k))
  {
    Clustering.AddCluster(entries, fs, eps, minSamples, clusters, cluster, visited1);
    ElementsIn(cluster);
    var cs := clusters + [cluster];
    forall p | 0 <= p < |cs| ensures Seeded(cs[p], eps) && |cs[p]| >= minSamples {
      if p < |clusters| { assert cs[p] == clusters[p]; }
    }
  }

  // ---------------------------------------------------------------------
  // Classification and title

  const CodingApps: seq<string> := ["code", "vscode", "cursor"]
  const GameWords: seq<string> := ["game"]
  const VideoApps: seq<string> := ["youtube", "netflix", "vlc"]
  const MeetingTitles: seq<string> := ["meeting", "zoom", "teams"]

  function LowerApps(entries: seq<Entry>): (r: seq<string>)
    ensures |r| == |entries|
    ensures forall i :: 0 <= i < |entries| ==> r[i] == Lower(entries[i].app)
  {
    seq(|entries|, i requires 0 <= i < |entries| => Lower(entries[i].app))
  }

  function LowerTitles(entries: seq<Entry>): (r: seq<string>)
    ensures |r| == |entries|
    ensures forall i :: 0 <= i < |entries| ==> r[i] == Lower(entries[i].title)
  {
    seq(|entries|, i requires 0 <= i < |entries| => Lower(entries[i].title))
  }

  /** `classifyEventType`. The gaming test is nested as in the source: the
      title test runs inside `apps.some`, so it only counts when there is at
      least one app. */
  function ClassifyEventType(entries: seq<Entry>): EventType {
    var apps := LowerApps(entries);
    var titles := LowerTitles(entries);
    if AnyContains(apps, CodingApps) then Coding
    else if exists i :: 0 <= i < |apps| && (Contains(apps[i], "game") || AnyContains(titles, GameWords)) then Gaming
    else if AnyContains(apps, VideoApps) then Video
    else if AnyContains(titles, MeetingTitles) then Meeting
    else Browsing
  }

  /** The first matching category wins, in the order coding (app), gaming (app
      or title), video (app), meeting (title); browsing otherwise, and never
      "other". */
  lemma ClassifySpec(entries: seq<Entry>)
    ensures var t := ClassifyEventType(entries);
      var apps := LowerApps(entries);
      var titles := LowerTitles(entries);
      var coding := AnyContains(apps, CodingApps);
      var gaming := AnyContains(apps, GameWords) || AnyContains(titles, GameWords);
      var video := AnyContains(apps, VideoApps);
      var meeting := AnyContains(titles, MeetingTitles);
      && (t == Coding <==> coding)
      && (t == Gaming <==> !coding && gaming)
      && (t == Video <==> !coding && !gaming && video)
      && (t == Meeting <==> !coding && !gaming && !video && meeting)
      && (t == Browsing <==> !coding && !gaming && !video && !meeting)
      && t != Other
  {
    var apps := LowerApps(entries);
    var titles := LowerTitles(entries);
    var nested := exists i :: 0 <= i < |apps| && (Contains(apps[i], "game") || AnyContains(titles, GameWords));
    if AnyContains(apps, GameWords) {
      var i, j :| 0 <= i < |apps| && 0 <= j < |GameWords| && Contains(apps[i], GameWords[j]);
      assert Contains(apps[i], "game");
    }
    if AnyContains(titles, GameWords) {
      var i, j :| 0 <= i < |titles| && 0 <= j < |GameWords| && Contains(titles[i], GameWords[j]);
      assert 0 <= i < |apps|;
    }
    if nested && !AnyContains(titles, GameWords) {
      var i :| 0 <= i < |apps| && Contains(apps[i], "game");
      assert Contains(apps[i], GameWords[0]);
    }
  }

  /** The keyword tests look at which records are present, not at their order. */
  lemma AnyContainsSame(a: seq<string>, b: seq<string>, keywords: seq<string>)
    requires forall x :: x in a <==> x in b
    ensures AnyContains(a, keywords) <==> AnyContains(b, keywords)
  {
    if AnyContains(a, keywords) {
      var i, j :| 0 <= i < |a| && 0 <= j < |keywords| && Contains(a[i], keywords[j]);
      assert a[i] in b;
      var i' :| 0 <= i' < |b| && b[i'] == a[i];
    }
    if AnyContains(b, keywords) {
      var i, j :| 0 <= i < |b| && 0 <= j < |keywords| && Contains(b[i], keywords[j]);
      assert b[i] in a;
      var i' :| 0 <= i' < |a| && a[i'] == b[i];
    }
  }

  /** Sorting the cluster before classifying it does not change the category. */
  lemma ClassifyPermutation(a: seq<Entry>, b: seq<Entry>)
    requires multiset(a) == multiset(b)
    ensures ClassifyEventType(a) == ClassifyEventType(b)
  {
    forall x ensures x in LowerApps(a) <==> x in LowerApps(b) {
      if x in LowerApps(a) {
        var i :| 0 <= i < |a| && LowerApps(a)[i] == x;
        assert a[i] in multiset(b);
        var i' :| 0 <= i' < |b| && b[i'] == a[i];
        assert LowerApps(b)[i'] == x;
      }
      if x in LowerApps(b) {
        var i :| 0 <= i < |b| && LowerApps(b)[i] == x;
        assert b[i] in multiset(a);
        var i' :| 0 <= i' < |a| && a[i'] == b[i];
        assert LowerApps(a)[i'] == x;
      }
    }
    forall x ensures x in LowerTitles(a) <==> x in LowerTitles(b) {
      if x in LowerTitles(a) {
        var i :| 0 <= i < |a| && LowerTitles(a)[i] == x;
        assert a[i] in multiset(b);
        var i' :| 0 <= i' < |b| && b[i'] == a[i];
        assert LowerTitles(b)[i'] == x;
      }
      if x in LowerTitles(b) {
        var i :| 0 <= i < |b| && LowerTitles(b)[i] == x;
        assert b[i] in multiset(a);
        var i' :| 0 <= i' < |a| && a[i'] == b[i];
        assert LowerTitles(a)[i'] == x;
      }
    }
    AnyContainsSame(LowerApps(a), LowerApps(b), CodingApps);
    AnyContainsSame(LowerApps(a), LowerApps(b), GameWords);
    AnyContainsSame(LowerTitles(a), LowerTitles(b), GameWords);
    AnyContainsSame(LowerApps(a), LowerApps(b), VideoApps);
    AnyContainsSame(LowerTitles(a), LowerTitles(b), MeetingTitles);
    ClassifySpec(a);
    ClassifySpec(b);
  }

  /** `generateEventTitle`: the fixed label of the category; the text is not used. */
  function EventTitle(t: EventType): string {
    match t
    case Coding => "Coding Session"
    case Gaming => "Gaming Session"
    case Video => "Video Watching"
    case Meeting => "Meeting"
    case Browsing => "Web Browsing"
    case Other => "Activity"
  }

  /** Different categories get different labels. */
  lemma EventTitleInjective(a: EventType, b: EventType)
    ensures EventTitle(a) == EventTitle(b) ==> a == b
  {
  }

  // ---------------------------------------------------------------------
  // Event building

  /** The image path of a capture: `/static/${timestamp}.webp`. */
  function ImagePath(ts: int): string {
    "/static/" + Clustering.ImageName(ts)
  }

  lemma ImagePathInjective(a: int, b: int)
    ensures ImagePath(a) == ImagePath(b) ==> a == b
  {
    if ImagePath(a) == ImagePath(b) {
      assert Clustering.ImageName(a) == ImagePath(a)[8..];
      assert Clustering.ImageName(b) == ImagePath(b)[8..];
      Clustering.ImageNameInjective(a, b);
    }
  }

  /** The thumbnails in the order they are added to the set: first, last (more
      than one member), middle (more than two). */
  function ThumbnailList(members: seq<Entry>): seq<string>
    requires |members| > 0
  {
    var n := |members|;
    [ImagePath(members[0].timestamp)]
      + (if n > 1 then [ImagePath(members[n - 1].timestamp)] else [])
      + (if n > 2 then [ImagePath(members[n / 2].timestamp)] else [])
  }

  /** `entries.reduce((sum, e) => sum + e.text.split(' ').length, 0)`. */
  function WordCount(entries: seq<Entry>): nat
    decreases |entries|
  {
    if entries == [] then 0
    else WordCount(entries[..|entries| - 1]) + |SplitOn(entries[|entries| - 1].text, ' ')|
  }

  /** Splitting on a single space never yields zero pieces, so every record
      counts at least one word, even with an empty text. */
  lemma {:induction false} WordCountAtLeast(entries: seq<Entry>)
    ensures WordCount(entries) >= |entries|
    decreases |entries|
  {
    if entries != [] {
      WordCountAtLeast(entries[..|entries| - 1]);
    }
  }

  const CommonWords: seq<string> := ["the", "and", "or", "but", "in", "on", "at", "to", "for", "of", "with", "by"]

  const StopWords: seq<string> := ["the", "and", "or", "but", "in", "on", "at", "to", "for", "of", "with", "by",
                                   "is", "are", "was", "were", "be", "been", "being"]

  /** The words of a lower-cased text. `split(/\s+/)` also yields empty pieces
      at leading or trailing white space; they are never long enough to be
      kept by any of the filters, so the non-empty words stand for it. */
  function LowerWords(e: Entry): seq<string> {
    Words(Lower(e.text))
  }

  /** What one record adds to the tag set, in order: its app, its language
      unless it is "unknown", and its text words longer than three characters
      that are not common words. */
  function EntryTagStream(e: Entry): seq<string> {
    [e.app] + (if e.language != "unknown" then [e.language] else []) + LongWords(LowerWords(e), 3, CommonWords)
  }

  function TagStream(entries: seq<Entry>): seq<string>
    decreases |entries|
  {
    if entries == [] then []
    else TagStream(entries[..|entries| - 1]) + EntryTagStream(entries[|entries| - 1])
  }

  /** `Array.from(tags).slice(0, 10)`. */
  function Tags(entries: seq<Entry>): seq<string> {
    Take(Uniq(TagStream(entries)), 10)
  }

  lemma TagStreamSnoc(entries: seq<Entry>, k: nat)
    requires k < |entries|
    ensures TagStream(entries[..k + 1]) == TagStream(entries[..k])
      + ([entries[k].app] + (if entries[k].language != "unknown" then [entries[k].language] else []))
      + LongWords(LowerWords(entries[k]), 3, CommonWords)
  {
    assert entries[..k + 1][..k] == entries[..k];
  }

  lemma LongWordsSnoc(ws: seq<string>, w: nat, minLength: nat, stop: seq<string>)
    requires w < |ws|
    ensures LongWords(ws[..w + 1], minLength, stop) ==
      LongWords(ws[..w], minLength, stop) + (if |ws[w]| > minLength && ws[w] !in stop then [ws[w]] else [])
  {
    assert ws[..w + 1][..w] == ws[..w];
  }

  lemma LongWordsStart(ws: seq<string>, minLength: nat, stop: seq<string>)
    ensures LongWords(ws[..0], minLength, stop) == []
    ensures ws[..|ws|] == ws
  {
  }

  lemma StreamsStart(entries: seq<Entry>)
    ensures TagStream(entries[..0]) == [] && WordStream(entries[..0]) == [] && Uniq<string>([]) == []
    ensures entries[..|entries|] == entries
  {
  }

  /** The loops of `extractTags`, adding to an insertion-ordered set. */
  method ExtractTags(entries: seq<Entry>) returns (tags: seq<string>)
    ensures tags == Tags(entries)
  {
    hide TagStream, Uniq, LongWords, LowerWords, AddNew, Take;
    StreamsStart(entries);
    var added: seq<string> := [];
    var k := 0;
    while k < |entries|
      invariant 0 <= k <= |entries|
      invariant added == Uniq(TagStream(entries[..k]))
    {
      var e := entries[k];
      ghost var before := TagStream(entries[..k]);
      AddNewUniq(before, e.app);
      added := AddNew(added, e.app);
      ghost var pre := [e.app];
      if e.language != "unknown" {
        AddNewUniq(before + pre, e.language);
        added := AddNew(added, e.language);
        assert before + pre + [e.language] == before + (pre + [e.language]);
        pre := pre + [e.language];
      }
      var words := LowerWords(e);
      LongWordsStart(words, 3, CommonWords);
      assert before + pre + [] == before + pre;
      var w := 0;
      while w < |words|
        invariant 0 <= w <= |words|
        invariant added == Uniq(before + pre + LongWords(words[..w], 3, CommonWords))
      {
        LongWordsSnoc(words, w, 3, CommonWords);
        if |words[w]| > 3 && words[w] !in CommonWords {
          AddNewUniq(before + pre + LongWords(words[..w], 3, CommonWords), words[w]);
          added := AddNew(added, words[w]);
          assert before + pre + LongWords(words[..w], 3, CommonWords) + [words[w]]
              == before + pre + (LongWords(words[..w], 3, CommonWords) + [words[w]]);
        } else {
          assert LongWords(words[..w], 3, CommonWords) + [] == LongWords(words[..w], 3, CommonWords);
        }
        w := w + 1;
      }
      assert pre == [e.app] + (if e.language != "unknown" then [e.language] else []);
      assert words[..w] == words;
      TagStreamSnoc(entries, k);
      k := k + 1;
    }
    tags := Take(added, 10);
  }

  /** What one record adds to the tag stream: its app, its language unless
      that is "unknown", and its kept text words. */
  lemma EntryTagStreamMembers(e: Entry, t: string)
    ensures t in EntryTagStream(e) <==>
      t == e.app || (t == e.language && t != "unknown") || (t in LowerWords(e) && |t| > 3 && t !in CommonWords)
  {
    LongWordsMembers(LowerWords(e), 3, CommonWords, t);
  }

  /** A string is in the tag stream exactly when it is the app of some record,
      the language of some record and not "unknown", or a kept text word of
      some record. */
  lemma {:induction false} TagStreamMembers(entries: seq<Entry>, t: string)
    ensures t in TagStream(entries) <==>
      || (exists i :: 0 <= i < |entries| && entries[i].app == t)
      || (exists i :: 0 <= i < |entries| && entries[i].language == t && t != "unknown")
      || (exists i :: 0 <= i < |entries| && t in LowerWords(entries[i]) && |t| > 3 && t !in CommonWords)
    decreases |entries|
  {
    hide EntryTagStream, LowerWords, LongWords;
    if entries != [] {
      var n := |entries|;
      var init := entries[..n - 1];
      var e := entries[n - 1];
      assert TagStream(entries) == TagStream(init) + EntryTagStream(e);
      TagStreamMembers(init, t);
      EntryTagStreamMembers(e, t);
      assert forall i :: 0 <= i < n - 1 ==> init[i] == entries[i];
      if exists i :: 0 <= i < n && entries[i].app == t {
        var i :| 0 <= i < n && entries[i].app == t;
        if i < n - 1 { assert init[i].app == t; }
      }
      if exists i :: 0 <= i < n && entries[i].language == t && t != "unknown" {
        var i :| 0 <= i < n && entries[i].language == t && t != "unknown";
        if i < n - 1 { assert init[i].language == t; }
      }
      if exists i :: 0 <= i < n && t in LowerWords(entries[i]) && |t| > 3 && t !in CommonWords {
        var i :| 0 <= i < n && t in LowerWords(entries[i]) && |t| > 3 && t !in CommonWords;
        if i < n - 1 { assert t in LowerWords(init[i]); }
      }
    }
  }

  /** What `extractTags` promises: at most ten distinct tags, each an app, a
      known language or a kept text word of the records; "unknown" appears
      only when it is an app or a text word; and when there are at most ten
      candidates, every app is a tag. */
  lemma TagsFacts(entries: seq<Entry>)
    ensures |Tags(entries)| <= 10 && Distinct(Tags(entries))
    ensures forall t :: t in Tags(entries) ==>
      || (exists i :: 0 <= i < |entries| && entries[i].app == t)
      || (exists i :: 0 <= i < |entries| && entries[i].language == t && t != "unknown")
      || (exists i :: 0 <= i < |entries| && t in LowerWords(entries[i]) && |t| > 3 && t !in CommonWords)
    ensures "unknown" in Tags(entries) ==>
      (exists i :: 0 <= i < |entries| && entries[i].app == "unknown")
      || (exists i :: 0 <= i < |entries| && "unknown" in LowerWords(entries[i]))
    ensures |Uniq(TagStream(entries))| <= 10 ==> forall i :: 0 <= i < |entries| ==> entries[i].app in Tags(entries)
  {
    hide Tags, TagStream, LowerWords;
    TagsDistinct(entries);
    forall t | t in Tags(entries)
      ensures || (exists i :: 0 <= i < |entries| && entries[i].app == t)
              || (exists i :: 0 <= i < |entries| && entries[i].language == t && t != "unknown")
              || (exists i :: 0 <= i < |entries| && t in LowerWords(entries[i]) && |t| > 3 && t !in CommonWords)
    {
      TagIsCandidate(entries, t);
      TagStreamMembers(entries, t);
    }
    if |Uniq(TagStream(entries))| <= 10 {
      TagsAllApps(entries);
    }
  }

  /** At most ten tags, none repeated. */
  lemma TagsDistinct(entries: seq<Entry>)
    ensures |Tags(entries)| <= 10 && Distinct(Tags(entries))
  {
    var u := Uniq(TagStream(entries));
    var tags := Tags(entries);
    assert forall i, j :: 0 <= i < j < |tags| ==> tags[i] == u[i] && tags[j] == u[j];
  }

  /** Every tag comes from the tag stream. */
  lemma TagIsCandidate(entries: seq<Entry>, t: string)
    requires t in Tags(entries)
    ensures t in TagStream(entries)
  {
    var u := Uniq(TagStream(entries));
    var tags := Tags(entries);
    var q :| 0 <= q < |tags| && tags[q] == t;
    assert u[q] == t;
  }

  /** With at most ten candidates nothing is cut, so every app is a tag. */
  lemma TagsAllApps(entries: seq<Entry>)
    requires |Uniq(TagStream(entries))| <= 10
    ensures forall i :: 0 <= i < |entries| ==> entries[i].app in Tags(entries)
  {
    hide LowerWords, EntryTagStream;
    forall i | 0 <= i < |entries| ensures entries[i].app in Tags(entries) {
      TagStreamMembers(entries, entries[i].app);
    }
  }

  /** The words `getTopWords` counts: longer than two characters and not stop words. */
  function WordStream(entries: seq<Entry>): seq<string>
    decreases |entries|
  {
    if entries == [] then []
    else WordStream(entries[..|entries| - 1]) + LongWords(LowerWords(entries[|entries| - 1]), 2, StopWords)
  }

  /** A counted word is a text word of some record, longer than two characters
      and not a stop word. */
  lemma {:induction false} WordStreamMembers(entries: seq<Entry>, w: string)
    ensures w in WordStream(entries) <==>
      (exists i :: 0 <= i < |entries| && w in LowerWords(entries[i])) && |w| > 2 && w !in StopWords
    decreases |entries|
  {
    if entries != [] {
      var n := |entries|;
      var init := entries[..n - 1];
      WordStreamMembers(init, w);
      LongWordsMembers(LowerWords(entries[n - 1]), 2, StopWords, w);
      assert forall i :: 0 <= i < n - 1 ==> init[i] == entries[i];
      if exists i :: 0 <= i < n && w in LowerWords(entries[i]) {
        var i :| 0 <= i < n && w in LowerWords(entries[i]);
        if i < n - 1 { assert w in LowerWords(init[i]); }
      }
    }
  }

  /** `getTopApps`: count apps into a dictionary, sort its entries by count
      descending (a stable sort), keep five. */
  method GetTopApps(entries: seq<Entry>) returns (top: seq<(string, nat)>)
    ensures top == TopCounts(Clustering.Apps(entries), 5)
  {
    var keys: seq<string> := [];
    var counts: map<string, nat> := map[];
    var k := 0;
    while k < |entries|
      invariant 0 <= k <= |entries|
      invariant Tabulates(keys, counts, Clustering.Apps(entries[..k]))
    {
      assert Clustering.Apps(entries[..k + 1]) == Clustering.Apps(entries[..k]) + [entries[k].app];
      BumpTabulates(keys, counts, Clustering.Apps(entries[..k]), entries[k].app);
      keys, counts := Bump(keys, counts, entries[k].app).0, Bump(keys, counts, entries[k].app).1;
      k := k + 1;
    }
    assert entries[..k] == entries;
    PairsAreCounts(keys, counts, Clustering.Apps(entries));
    top := Take(SortDesc(Pairs(keys, counts)), 5);
  }

  lemma WordStreamSnoc(entries: seq<Entry>, k: nat)
    requires k < |entries|
    ensures WordStream(entries[..k + 1]) == WordStream(entries[..k]) + LongWords(LowerWords(entries[k]), 2, StopWords)
  {
    assert entries[..k + 1][..k] == entries[..k];
  }

  /** `getTopWords`: count the kept words of every record, sort by count
      descending, keep ten. */
  method GetTopWords(entries: seq<Entry>) returns (top: seq<(string, nat)>)
    ensures top == TopCounts(WordStream(entries), 10)
  {
    hide WordStream, LongWords, LowerWords, Uniq, Tabulates, Bump, Pairs, SortDesc, Take;
    StreamsStart(entries);
    TabulatesEmpty<string>();
    var keys: seq<string> := [];
    var counts: map<string, nat> := map[];
    var k := 0;
    while k < |entries|
      invariant 0 <= k <= |entries|
      invariant Tabulates(keys, counts, WordStream(entries[..k]))
    {
      ghost var before := WordStream(entries[..k]);
      var words := LowerWords(entries[k]);
      LongWordsStart(words, 2, StopWords);
      assert before + [] == before;
      var w := 0;
      while w < |words|
        invariant 0 <= w <= |words|
        invariant Tabulates(keys, counts, before + LongWords(words[..w], 2, StopWords))
      {
        LongWordsSnoc(words, w, 2, StopWords);
        if |words[w]| > 2 && words[w] !in StopWords {
          BumpTabulates(keys, counts, before + LongWords(words[..w], 2, StopWords), words[w]);
          keys, counts := Bump(keys, counts, words[w]).0, Bump(keys, counts, words[w]).1;
          assert before + LongWords(words[..w], 2, StopWords) + [words[w]]
              == before + (LongWords(words[..w], 2, StopWords) + [words[w]]);
        } else {
          assert LongWords(words[..w], 2, StopWords) + [] == LongWords(words[..w], 2, StopWords);
        }
        w := w + 1;
      }
      assert words[..w] == words;
      WordStreamSnoc(entries, k);
      k := k + 1;
    }
    PairsAreCounts(keys, counts, WordStream(entries));
    top := Take(SortDesc(Pairs(keys, counts)), 10);
  }

  /** What the statistics promise: at most ten words, most frequent first,
      each a kept word with its true count. */
  lemma TopWordsFacts(entries: seq<Entry>)
    ensures var top := TopCounts(WordStream(entries), 10);
      && |top| <= 10
      && SortedDesc(top)
      && Distinct(Keys(top))
      && forall i :: 0 <= i < |top| ==>
           |top[i].0| > 2 && top[i].0 !in StopWords
           && (exists j :: 0 <= j < |entries| && top[i].0 in LowerWords(entries[j]))
           && top[i].1 == multiset(WordStream(entries))[top[i].0]
  {
    var top := TopCounts(WordStream(entries), 10);
    TopCountsSpec(WordStream(entries), 10);
    forall i | 0 <= i < |top|
      ensures |top[i].0| > 2 && top[i].0 !in StopWords
      ensures exists j :: 0 <= j < |entries| && top[i].0 in LowerWords(entries[j])
    {
      WordStreamMembers(entries, top[i].0);
    }
  }

  /** The event `createEventFromCluster` returns for the time-ordered members,
      with the id and the summariser the caller supplies. */
  function EventOf(members: seq<Entry>, id: string, summarize: string -> string): FrontEvent
    requires |members| > 0
  {
    var n := |members|;
    var kind := ClassifyEventType(members);
    FrontEvent(id, kind, EventTitle(kind), summarize(ClusteringRun.CombinedText(members)),
               members[0].timestamp, members[n - 1].timestamp, members[n - 1].timestamp - members[0].timestamp,
               members, ImagePath(members[n / 2].timestamp), Uniq(ThumbnailList(members)),
               Uniq(Clustering.Apps(members)),
               FrontStats(n, TopCounts(Clustering.Apps(members), 5), WordCount(members),
                          TopCounts(WordStream(members), 10)),
               Tags(members))
  }

  /** Builds the event field by field as the source does. */
  method BuildEvent(members: seq<Entry>, id: string, summarize: string -> string) returns (ev: FrontEvent)
    requires |members| > 0
    ensures ev == EventOf(members, id, summarize)
  {
    hide Uniq, TopCounts, Tags, WordStream, WordCount, ClassifyEventType, ImagePath, ThumbnailList, AddNew;
    var n := |members|;
    var kind := ClassifyEventType(members);
    var hero := ImagePath(members[n / 2].timestamp);
    var thumbnails: seq<string> := [];
    thumbnails := AddNew(thumbnails, ImagePath(members[0].timestamp));
    if n > 1 {
      thumbnails := AddNew(thumbnails, ImagePath(members[n - 1].timestamp));
    }
    if n > 2 {
      thumbnails := AddNew(thumbnails, hero);
    }
    ThumbnailsAdded(members);
    var description := summarize(ClusteringRun.CombinedText(members));
    var tags := ExtractTags(members);
    var topApps := GetTopApps(members);
    var topWords := GetTopWords(members);
    ev := FrontEvent(id, kind, EventTitle(kind), description,
                     members[0].timestamp, members[n - 1].timestamp, members[n - 1].timestamp - members[0].timestamp,
                     members, hero, thumbnails, Uniq(Clustering.Apps(members)),
                     FrontStats(n, topApps, WordCount(members), topWords), tags);
  }

  /** The fields of a built event that the lemmas below speak about. */
  lemma EventOfFields(members: seq<Entry>, id: string, summarize: string -> string)
    requires |members| > 0
    ensures var ev := EventOf(members, id, summarize);
      var n := |members|;
      && ev.id == id
      && ev.entries == members
      && ev.startTime == members[0].timestamp
      && ev.endTime == members[n - 1].timestamp
      && ev.duration == ev.endTime - ev.startTime
      && ev.stats.screenshotCount == n
      && ev.kind == ClassifyEventType(members)
      && ev.title == EventTitle(ev.kind)
      && ev.heroImage == ImagePath(members[n / 2].timestamp)
      && ev.thumbnails == Uniq(ThumbnailList(members))
  {
  }

  /** Adding first, last and middle image to the set one by one gives the
      de-duplicated thumbnail list. */
  lemma ThumbnailsAdded(members: seq<Entry>)
    requires |members| > 0
    ensures var n := |members|;
      var a := AddNew([], ImagePath(members[0].timestamp));
      var b := if n > 1 then AddNew(a, ImagePath(members[n - 1].timestamp)) else a;
      var c := if n > 2 then AddNew(b, ImagePath(members[n / 2].timestamp)) else b;
      c == Uniq(ThumbnailList(members))
  {
    hide ImagePath, AddNew, Uniq;
    UniqEmpty<string>();
    var n := |members|;
    var x, y, z := ImagePath(members[0].timestamp), ImagePath(members[n - 1].timestamp), ImagePath(members[n / 2].timestamp);
    AddNewUniq([], x);
    assert [] + [x] == [x];
    if n > 1 {
      AddNewUniq([x], y);
      assert [x] + [y] == [x, y];
      if n > 2 {
        AddNewUniq([x, y], z);
        assert [x, y] + [z] == ThumbnailList(members);
      } else {
        assert [x] + [y] == ThumbnailList(members);
      }
    } else {
      assert [x] == ThumbnailList(members);
    }
  }

  /** `createEventFromCluster`: throws "Empty cluster" for an empty cluster,
      otherwise sorts the members by time (in place, stably) and builds the
      event. */
  method CreateEventFromCluster(cluster: seq<Entry>, id: string, summarize: string -> string)
    returns (r: Result<FrontEvent>)
    ensures r.Failure? <==> |cluster| == 0
    ensures r.Failure? ==> r.error == "Empty cluster"
    ensures r.Success? ==> |cluster| > 0 && r.value == EventOf(SortByTime(cluster), id, summarize)
  {
    if |cluster| == 0 {
      return Failure("Empty cluster");
    }
    var members := SortByTime(cluster);
    var ev := BuildEvent(members, id, summarize);
    r := Success(ev);
  }

  /** The event spans its members: it starts at the earliest capture, ends at
      the latest, has a non-negative duration and counts every member; its
      category, title and tags follow from the members. */
  lemma EventSpan(cluster: seq<Entry>, members: seq<Entry>, id: string, summarize: string -> string)
    requires |cluster| > 0 && SortedByTime(members) && multiset(members) == multiset(cluster)
    ensures var ev := EventOf(members, id, summarize);
      && ev.startTime <= ev.endTime
      && ev.duration == ev.endTime - ev.startTime >= 0
      && (forall e :: e in cluster ==> ev.startTime <= e.timestamp <= ev.endTime)
      && ev.stats.screenshotCount == |cluster|
      && ev.kind == ClassifyEventType(cluster)
      && ev.title == EventTitle(ClassifyEventType(cluster))
      && ev.kind != Other
  {
    hide *;
    EventOfFields(members, id, summarize);
    Clustering.SortedSpan(cluster, members);
    assert cluster[0] in cluster;
    ClassifyPermutation(members, cluster);
    ClassifySpec(cluster);
  }

  /** The hero image is one of the thumbnails; the thumbnails are distinct,
      at most three, and start with the first capture. */
  lemma EventImages(members: seq<Entry>, id: string, summarize: string -> string)
    requires |members| > 0
    ensures var ev := EventOf(members, id, summarize);
      && ev.heroImage in ev.thumbnails
      && Distinct(ev.thumbnails)
      && 0 < |ev.thumbnails| <= 3
      && ev.thumbnails[0] == ImagePath(ev.startTime)
  {
    hide EventOf, Uniq, ImagePath;
    EventOfFields(members, id, summarize);
    var n := |members|;
    var l := ThumbnailList(members);
    var u := Uniq(l);
    UniqHead(l);
    if n <= 2 {
      assert n / 2 == 0 || n / 2 == n - 1;
      assert l[n / 2] == ImagePath(members[n / 2].timestamp);
    } else {
      assert l[2] == ImagePath(members[n / 2].timestamp);
    }
  }

  /** The de-duplication of a non-empty sequence starts with its first element. */
  lemma {:induction false} UniqHead(s: seq<string>)
    requires |s| > 0
    ensures |Uniq(s)| > 0 && Uniq(s)[0] == s[0]
    decreases |s|
  {
    hide Uniq;
    if |s| > 1 {
      var init := s[..|s| - 1];
      UniqHead(init);
      assert init + [s[|s| - 1]] == s;
      UniqPrefix(init, [s[|s| - 1]]);
      assert Uniq(s)[0] == Uniq(init)[0] == init[0];
    } else {
      assert s == [s[0]];
      UniqPrefix([], s);
    }
  }

  // ---------------------------------------------------------------------
  // The whole pass

  /** The member lists of the built events. */
  function Groups(events: seq<FrontEvent>): (gs: seq<seq<Entry>>)
    ensures |gs| == |events|
    ensures forall p :: 0 <= p < |events| ==> gs[p] == events[p].entries
  {
    seq(|events|, p requires 0 <= p < |events| => events[p].entries)
  }

  /** `Promise.all(clusters.map(createEventFromCluster))`: the events in cluster
      order, the p-th with id `newId(p)`; rejected with the first error. */
  function EventsFromClusters(clusters: seq<seq<Entry>>, summarize: string -> string, newId: nat -> string)
    : (r: Result<seq<FrontEvent>>)
    ensures r.Failure? <==> exists p :: 0 <= p < |clusters| && |clusters[p]| == 0
    ensures r.Success? ==> |r.value| == |clusters|
    ensures r.Success? ==> forall p :: 0 <= p < |clusters| ==>
      |clusters[p]| > 0 && r.value[p] == EventOf(SortByTime(clusters[p]), newId(p), summarize)
    ensures r.Failure? ==> r.error == "Empty cluster"
  {
    if exists p :: 0 <= p < |clusters| && |clusters[p]| == 0 then Failure("Empty cluster")
    else Success(seq(|clusters|, p requires 0 <= p < |clusters| => EventOf(SortByTime(clusters[p]), newId(p), summarize)))
  }

  /** Event p is named by `newId(p)`; when the id source never repeats an id
      (as `generateId()` is meant to), no two events share an id. */
  lemma EventIdsDistinct(clusters: seq<seq<Entry>>, summarize: string -> string, newId: nat -> string)
    requires forall p, q :: 0 <= p < q < |clusters| ==> newId(p) != newId(q)
    ensures var r := EventsFromClusters(clusters, summarize, newId);
      r.Success? ==> forall p, q :: 0 <= p < q < |r.value| ==> r.value[p].id != r.value[q].id
  {
    var r := EventsFromClusters(clusters, summarize, newId);
    if r.Success? {
      forall p, q | 0 <= p < q < |r.value| ensures r.value[p].id != r.value[q].id {
        assert r.value[p].id == newId(p) && r.value[q].id == newId(q);
      }
    }
  }

  /** The events built one cluster after the other. */
  method BuildEvents(clusters: seq<seq<Entry>>, summarize: string -> string, newId: nat -> string)
    returns (r: Result<seq<FrontEvent>>)
    ensures r == EventsFromClusters(clusters, summarize, newId)
  {
    hide *;
    var events: seq<FrontEvent> := [];
    var p := 0;
    while p < |clusters|
      invariant 0 <= p <= |clusters| && |events| == p
      invariant forall q :: 0 <= q < p ==> |clusters[q]| > 0 && events[q] == EventOf(SortByTime(clusters[q]), newId(q), summarize)
    {
      var ev := CreateEventFromCluster(clusters[p], newId(p), summarize);
      if ev.Failure? {
        return Failure(ev.error);
      }
      events := events + [ev.value];
      p := p + 1;
    }
    r := Success(events);
    ghost var expected := EventsFromClusters(clusters, summarize, newId);
    assert expected.Success?;
    assert expected.value == events;
  }

  /** A kept cluster lists its seed twice and every other member once, so it
      holds one capture fewer than its length. */
  lemma SeededCount(cluster: seq<Entry>, eps: real)
    requires Seeded(cluster, eps) && eps >= 0.0
    ensures |Elements(cluster)| == |cluster| - 1
  {
    var rest := cluster[1..];
    ElementsIn(cluster);
    ElementsIn(rest);
    assert Elements(cluster) == Elements(rest);
    DistinctElementsCount(rest);
  }

  /** `clusterEntries`: segments the feature records as given (no sorting) and
      builds one event per kept cluster, in cluster order. `newId(p)` stands
      for the id drawn for the p-th event. */
  method ClusterEntries(featureData: seq<FeaturedText>, eps: real, minSamples: int,
                        summarize: string -> string, newId: nat -> string)
    returns (r: Result<seq<FrontEvent>>)
    requires Distinct(EntriesOf(featureData))
    ensures r.Success?
    ensures featureData == [] ==> r.value == []
    ensures forall p :: 0 <= p < |r.value| ==>
      && |r.value[p].entries| > 0 && |r.value[p].entries| >= minSamples
      && SortedByTime(r.value[p].entries)
      && r.value[p] == EventOf(r.value[p].entries, newId(p), summarize)
      && (eps >= 0.0 ==> |Elements(r.value[p].entries)| == |r.value[p].entries| - 1)
      && (forall t :: 0 <= t < |r.value[p].entries| ==> r.value[p].entries[t] in EntriesOf(featureData))
    ensures PairwiseDisjoint(Groups(r.value))
    ensures forall k :: 0 <= k < |featureData| && featureData[k].entry in Members(Groups(r.value)) ==>
      Clusterable(VectorsOf(featureData), eps, minSamples, k)
    ensures KeepsAll(eps, minSamples) ==> forall k :: 0 <= k < |featureData| && Clusterable(VectorsOf(featureData), eps, minSamples, k) ==>
      featureData[k].entry in Members(Groups(r.value))
    ensures Clustering.CoreAnchored(EntriesOf(featureData), VectorsOf(featureData), eps, minSamples, Groups(r.value))
    ensures KeepsAll(eps, minSamples) ==>
      Clustering.CoreLinked(EntriesOf(featureData), VectorsOf(featureData), eps, minSamples, Groups(r.value))
  {
    hide EventOf, EventsFromClusters, SortByTime, Members, Clusterable, IsCore, Uniq, TopCounts, Region, Reachable;
    var entries := EntriesOf(featureData);
    var fs := VectorsOf(featureData);
    var clusters, noise := Segment(entries, fs, eps, minSamples);
    r := BuildEvents(clusters, summarize, newId);
    assert forall p :: 0 <= p < |clusters| ==> |clusters[p]| > 0;
    assert r.Success?;
    var events := r.value;
    BuiltEvents(entries, clusters, events, eps, minSamples, summarize, newId);
    GroupsMembers(clusters, events, summarize, newId);
    Clustering.SameGroupsLinked(entries, fs, eps, minSamples, clusters, Groups(events));
    forall k | 0 <= k < |featureData|
      ensures featureData[k].entry == entries[k]
    {
    }
    assert |clusters| > 0 ==> clusters[0][0] in entries;
  }

  /** Each event lists exactly the records of its cluster. */
  lemma GroupsMembers(clusters: seq<seq<Entry>>, events: seq<FrontEvent>, summarize: string -> string, newId: nat -> string)
    requires |events| == |clusters|
    requires forall p :: 0 <= p < |clusters| ==> |clusters[p]| > 0 && events[p] == EventOf(SortByTime(clusters[p]), newId(p), summarize)
    ensures |Groups(events)| == |clusters|
    ensures forall p, x :: 0 <= p < |clusters| ==> (x in Groups(events)[p] <==> x in clusters[p])
  {
    hide *;
    forall p, x | 0 <= p < |clusters| ensures x in Groups(events)[p] <==> x in clusters[p] {
      EventOfFields(SortByTime(clusters[p]), newId(p), summarize);
      assert Groups(events)[p] == SortByTime(clusters[p]);
      assert x in clusters[p] <==> x in multiset(clusters[p]);
      assert x in Groups(events)[p] <==> x in multiset(Groups(events)[p]);
    }
  }

  /** What the events inherit from the clusters they are built from. */
  lemma BuiltEvents(entries: seq<Entry>, clusters: seq<seq<Entry>>, events: seq<FrontEvent>, eps: real, minSamples: int,
                    summarize: string -> string, newId: nat -> string)
    requires forall p :: 0 <= p < |clusters| ==> Seeded(clusters[p], eps) && |clusters[p]| >= minSamples
    requires forall p, t :: 0 <= p < |clusters| && 0 <= t < |clusters[p]| ==> clusters[p][t] in entries
    requires |events| == |clusters|
    requires forall p :: 0 <= p < |clusters| ==> |clusters[p]| > 0 && events[p] == EventOf(SortByTime(clusters[p]), newId(p), summarize)
    ensures forall p :: 0 <= p < |events| ==>
      && |events[p].entries| > 0 && |events[p].entries| >= minSamples
      && SortedByTime(events[p].entries)
      && events[p] == EventOf(events[p].entries, newId(p), summarize)
      && (eps >= 0.0 ==> |Elements(events[p].entries)| == |events[p].entries| - 1)
      && (forall t :: 0 <= t < |events[p].entries| ==> events[p].entries[t] in entries)
    ensures Members(Groups(events)) == Members(clusters)
    ensures PairwiseDisjoint(clusters) ==> PairwiseDisjoint(Groups(events))
  {
    hide *;
    forall p | 0 <= p < |events|
      ensures events[p].entries == SortByTime(clusters[p])
      ensures multiset(clusters[p]) == multiset(Groups(events)[p])
    {
      EventOfFields(SortByTime(clusters[p]), newId(p), summarize);
    }
    GroupsPermuted(clusters, Groups(events));
    forall p | 0 <= p < |events|
      ensures |events[p].entries| > 0 && |events[p].entries| >= minSamples
      ensures SortedByTime(events[p].entries)
      ensures events[p] == EventOf(events[p].entries, newId(p), summarize)
      ensures eps >= 0.0 ==> |Elements(events[p].entries)| == |events[p].entries| - 1
      ensures forall t :: 0 <= t < |events[p].entries| ==> events[p].entries[t] in entries
    {
      var members := events[p].entries;
      var c := clusters[p];
      assert |members| == |c|;
      ElementsIn(members);
      ElementsIn(c);
      forall x ensures x in members <==> x in c {
        assert x in members <==> x in multiset(members);
        assert x in c <==> x in multiset(c);
      }
      assert Elements(members) == Elements(c);
      if eps >= 0.0 {
        SeededCount(c, eps);
      }
      forall t | 0 <= t < |members| ensures members[t] in entries {
        assert members[t] in members;
        assert members[t] in c;
      }
    }
  }
}

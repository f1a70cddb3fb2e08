/** The bookkeeping of `draw_graph` that decides what is declared to the
  * graph backend: one fill colour per module type, the backbone / neck / head
  * clusters, and the de-duplicated edge list with dangling sources
  * redirected to the Input node. */
module Draw {
  import opened Utils
  import opened Parse

  /** `get_color_palette()`. */
  const Palette: seq<string> := [
    "#C2E7D9", "#FFD6A5", "#FFB5A7", "#A0C4FF", "#BDB2FF",
    "#B5E48C", "#FEC5BB", "#FCD5CE", "#D0F4DE", "#FFF0B3",
    "#A3C9A8", "#B8D0EB", "#E2B8A6", "#DDBDF1", "#B2F7EF"
  ]

  /** `palette[k % len(palette)]`: the palette is used cyclically. */
  function PaletteColor(k: nat): string
  {
    Palette[k % |Palette|]
  }

  // ---------------------------------------------------------------------
  // First-seen order
  // ---------------------------------------------------------------------

  predicate NoDuplicates<T(==)>(s: seq<T>)
  {
    forall i, j :: 0 <= i < j < |s| ==> s[i] != s[j]
  }

  /** The distinct elements of s, in the order of their first occurrence:
    * what a loop that skips already-seen elements collects. */
  function FirstSeen<T(==)>(s: seq<T>): (r: seq<T>)
    ensures |r| <= |s|
    decreases |s|
  {
    if s == [] then []
    else
      var p := FirstSeen(s[..|s| - 1]);
      if s[|s| - 1] in p then p else p + [s[|s| - 1]]
  }

  /** FirstSeen never lists an element twice. */
  lemma {:induction false} FirstSeenDistinct<T>(s: seq<T>)
    ensures NoDuplicates(FirstSeen(s))
    decreases |s|
  {
    if s != [] {
      var p := s[..|s| - 1];
      FirstSeenDistinct(p);
      FirstSeenMembers(p, s[|s| - 1]);
    }
  }

  /** The position of the first occurrence of x in s. */
  function FirstIndex<T(==)>(s: seq<T>, x: T): (k: nat)
    requires x in s
    ensures k < |s| && s[k] == x && x !in s[..k]
    decreases |s|
  {
    var p := s[..|s| - 1];
    if x in p then
      var k := FirstIndex(p, x);
      assert s[..k] == p[..k];
      k
    else
      assert s[..|s| - 1] == p;
      |s| - 1
  }

  /** FirstSeen lists the distinct elements exactly in the order in which
    * they first occur. */
  lemma {:induction false} FirstSeenOrder<T>(s: seq<T>, i: nat, j: nat)
    requires i < j < |FirstSeen(s)|
    ensures FirstSeen(s)[i] in s && FirstSeen(s)[j] in s
    ensures FirstIndex(s, FirstSeen(s)[i]) < FirstIndex(s, FirstSeen(s)[j])
    decreases |s|
  {
    var p := s[..|s| - 1];
    var r, rp := FirstSeen(s), FirstSeen(p);
    var x, y := r[i], r[j];
    FirstSeenMembers(s, x);
    FirstSeenMembers(s, y);
    if j < |rp| {
      assert x == rp[i] && y == rp[j];
      FirstSeenOrder(p, i, j);
      FirstIndexOfPrefix(s, x);
      FirstIndexOfPrefix(s, y);
    } else {
      FirstSeenMembers(p, x);
      FirstSeenMembers(p, y);
      assert y == s[|s| - 1] && y !in p;
      assert x == rp[i] && x in p;
      FirstIndexOfPrefix(s, x);
    }
  }

  lemma FirstIndexOfPrefix<T>(s: seq<T>, x: T)
    requires |s| > 0 && x in s[..|s| - 1]
    ensures FirstIndex(s, x) == FirstIndex(s[..|s| - 1], x)
  {
  }

  /** The first-seen list of a prefix is a prefix of the first-seen list. */
  lemma {:induction false} FirstSeenPrefix<T>(s: seq<T>, n: nat)
    requires n <= |s|
    ensures FirstSeen(s[..n]) <= FirstSeen(s)
    decreases |s| - n
  {
    if n < |s| {
      FirstSeenPrefix(s, n + 1);
      assert s[..n + 1][..n] == s[..n];
    } else {
      assert s[..n] == s;
    }
  }

  // ---------------------------------------------------------------------
  // Colour table
  // ---------------------------------------------------------------------

  function Types(layers: seq<LayerRecord>): (ts: seq<string>)
    ensures |ts| == |layers|
  {
    seq(|layers|, k requires 0 <= k < |layers| => layers[k].kind)
  }

  /** typeColors maps exactly the types of `seen`, the k-th of them to
    * palette entry k modulo 15. */
  ghost predicate ColorsFollow(typeColors: map<string, string>, seen: seq<string>)
  {
    && (forall t :: t in typeColors <==> t in seen)
    && (forall k :: 0 <= k < |seen| ==> seen[k] in typeColors && typeColors[seen[k]] == PaletteColor(k))
  }

  lemma ColorsFollowStep(typeColors: map<string, string>, seen: seq<string>, t: string)
    requires ColorsFollow(typeColors, seen) && t !in seen
    ensures ColorsFollow(typeColors[t := PaletteColor(|seen|)], seen + [t])
  {
    var tc := typeColors[t := PaletteColor(|seen|)];
    var s2 := seen + [t];
    forall k | 0 <= k < |s2| ensures s2[k] in tc && tc[s2[k]] == PaletteColor(k) {
      if k < |seen| {
        assert s2[k] == seen[k] && seen[k] != t;
      }
    }
  }

  /** The colour loop: the k-th distinct module type, in first-seen order,
    * gets palette entry k modulo 15; every type present gets exactly one
    * colour; the counter ends at the number of distinct types. */
  method AssignColors(layers: seq<LayerRecord>) returns (typeColors: map<string, string>, colorIdx: nat)
    ensures colorIdx == |FirstSeen(Types(layers))|
    ensures forall t :: t in typeColors <==> t in Types(layers)
    ensures forall k :: 0 <= k < colorIdx ==>
      FirstSeen(Types(layers))[k] in typeColors &&
      typeColors[FirstSeen(Types(layers))[k]] == PaletteColor(k)
  {
    var ts := Types(layers);
    typeColors := map[];
    colorIdx := 0;
    ghost var seen: seq<string> := [];
    var i := 0;
    while i < |layers|
      invariant 0 <= i <= |layers|
      invariant seen == FirstSeen(ts[..i])
      invariant colorIdx == |seen|
      invariant ColorsFollow(typeColors, seen)
    {
      var t := layers[i].kind;
      assert ts[..i + 1] == ts[..i] + [t];
      FirstSeenSnoc(ts[..i], t);
      if t !in typeColors {
        ColorsFollowStep(typeColors, seen, t);
        typeColors := typeColors[t := PaletteColor(colorIdx)];
        colorIdx := colorIdx + 1;
        seen := seen + [t];
      }
      i := i + 1;
    }
    assert ts[..i] == ts;
    ColorsOfTypes(typeColors, ts);
  }

  /** Colours that follow the first-seen list cover exactly the types, the
    * k-th first-seen one with palette entry k. */
  lemma ColorsOfTypes(typeColors: map<string, string>, ts: seq<string>)
    requires ColorsFollow(typeColors, FirstSeen(ts))
    ensures forall t :: t in typeColors <==> t in ts
    ensures forall k :: 0 <= k < |FirstSeen(ts)| ==>
      FirstSeen(ts)[k] in typeColors && typeColors[FirstSeen(ts)[k]] == PaletteColor(k)
  {
    forall t ensures t in typeColors <==> t in ts {
      FirstSeenMembers(ts, t);
    }
  }

  lemma FirstSeenSnoc<T>(s: seq<T>, x: T)
    ensures FirstSeen(s + [x]) == if x in FirstSeen(s) then FirstSeen(s) else FirstSeen(s) + [x]
  {
    assert (s + [x])[..|s|] == s;
  }

  /** FirstSeen drops repeats and nothing else: it holds exactly the
    * elements of s. */
  lemma {:induction false} FirstSeenMembers<T>(s: seq<T>, x: T)
    ensures x in FirstSeen(s) <==> x in s
    decreases |s|
  {
    if s != [] {
      var p := s[..|s| - 1];
      FirstSeenMembers(p, x);
      assert s == p + [s[|s| - 1]];
    }
  }

  /** The palette has fifteen different colours. */
  lemma PaletteDistinct()
    ensures |Palette| == 15
    ensures forall i, j :: 0 <= i < j < |Palette| ==> Palette[i] != Palette[j]
  {
    forall i, j | 0 <= i < j < |Palette| ensures Palette[i] != Palette[j] {
      assert Palette[i][1] != Palette[j][1] || Palette[i][2] != Palette[j][2] ||
        Palette[i][3] != Palette[j][3] || Palette[i][4] != Palette[j][4] ||
        Palette[i][5] != Palette[j][5] || Palette[i][6] != Palette[j][6];
    }
  }

  // ---------------------------------------------------------------------
  // Clusters
  // ---------------------------------------------------------------------

  datatype Clusters = Clusters(backbone: seq<LayerRecord>, neck: seq<LayerRecord>, head: Option<LayerRecord>)

  datatype DrawError = HeadIndexOutOfRange

  /** `layers[:backbone_len]`. */
  function BackboneNodes(layers: seq<LayerRecord>, backboneLen: nat): seq<LayerRecord>
  {
    if backboneLen < |layers| then layers[..backboneLen] else layers
  }

  /** `layers[backbone_len:-1] if backbone_len < len(layers) - 1 else []`. */
  function NeckNodes(layers: seq<LayerRecord>, backboneLen: nat): seq<LayerRecord>
  {
    if backboneLen < |layers| - 1 then layers[backboneLen..|layers| - 1] else []
  }

  /** The head node as the source looks it up: `head_idx` is the `idx` of the
    * last record, and it is used as a list position `layers[head_idx]`. */
  function HeadNodeAsWritten(layers: seq<LayerRecord>): (r: Result<Option<LayerRecord>, DrawError>)
    ensures layers == [] ==> r == Ok(None)
  {
    if layers == [] then Ok(None)
    else
      var headIdx := layers[|layers| - 1].idx;
      if headIdx < |layers| then Ok(Some(layers[headIdx])) else Err(HeadIndexOutOfRange)
  }

  /** The head node as intended: the last record. */
  function HeadNode(layers: seq<LayerRecord>): (r: Option<LayerRecord>)
    ensures r.None? <==> layers == []
    ensures r.Some? ==> r.value == layers[|layers| - 1]
  {
    if layers == [] then None else Some(layers[|layers| - 1])
  }

  /** The three clusters. When the backbone length is below the number of
    * records, backbone, neck and head together are the records, each once and
    * in order; otherwise the backbone holds every record and the last record
    * is drawn again as the head. */
  function Partition(layers: seq<LayerRecord>, backboneLen: nat): (c: Clusters)
    ensures c.head == HeadNode(layers)
    ensures c.head.None? <==> layers == []
    ensures backboneLen < |layers| ==> c.backbone + c.neck + [c.head.value] == layers
    ensures backboneLen >= |layers| ==> c.backbone == layers && c.neck == []
    ensures |c.backbone| == (if backboneLen < |layers| then backboneLen else |layers|)
  {
    var c := Clusters(BackboneNodes(layers, backboneLen), NeckNodes(layers, backboneLen), HeadNode(layers));
    assert backboneLen < |layers| ==> c.backbone + c.neck == layers[..|layers| - 1];
    c
  }

  /** On the records the first pass produces, the source's head lookup
    * succeeds exactly when no entry before the last record's position was
    * skipped, and then it finds the last record. */
  lemma HeadNodeAsWrittenIff(s: seq<Entry>, backboneLen: nat, m: Multipliers, inputChannels: int)
    requires Interpret(s, backboneLen, m, inputChannels).Ok?
    requires Interpret(s, backboneLen, m, inputChannels).value.layers != []
    ensures var ls := Interpret(s, backboneLen, m, inputChannels).value.layers;
      && ls[|ls| - 1].idx < |s|
      && (HeadNodeAsWritten(ls).Ok? <==> forall q :: 0 <= q < ls[|ls| - 1].idx ==> s[q].Layer?)
      && (HeadNodeAsWritten(ls).Ok? ==> HeadNodeAsWritten(ls).value == HeadNode(ls))
  {
    var t := Interpret(s, backboneLen, m, inputChannels).value;
    var ls := t.layers;
    var k := |ls| - 1;
    InterpretRecords(s, backboneLen, m, inputChannels);
    assert RecordMatches(s, backboneLen, m, t, k);
    var idx := ls[k].idx;
    CountLayersAll(s[..idx]);
    assert forall q :: 0 <= q < idx ==> s[..idx][q] == s[q];
  }

  /** Every entry is accepted exactly when the count of accepted entries is
    * the length. */
  lemma {:induction false} CountLayersAll(s: seq<Entry>)
    ensures CountLayers(s) == |s| <==> forall q :: 0 <= q < |s| ==> s[q].Layer?
    decreases |s|
  {
    if s != [] {
      var p := s[..|s| - 1];
      CountLayersAll(p);
      CountLayersBound(p);
      if CountLayers(s) == |s| {
        forall q | 0 <= q < |s| ensures s[q].Layer? {
          if q < |p| {
            assert s[q] == p[q];
          }
        }
      }
      if forall q :: 0 <= q < |s| ==> s[q].Layer? {
        assert forall q :: 0 <= q < |p| ==> p[q] == s[q];
      }
    }
  }

  /** One skipped entry in front of a single layer is enough for the
    * source's head lookup to index past the end of the list. */
  lemma HeadLookupFailsAfterSkip(spec: LayerSpec, m: Multipliers, inputChannels: int)
    ensures var r := Interpret([Skipped, Layer(spec)], 1, m, inputChannels);
      && r.Ok?
      && |r.value.layers| == 1
      && r.value.layers[0].idx == 1
      && HeadNodeAsWritten(r.value.layers) == Err(HeadIndexOutOfRange)
      && HeadNode(r.value.layers) == Some(r.value.layers[0])
  {
    var s := [Skipped, Layer(spec)];
    var t0 := Table([inputChannels], []);
    assert s[..1] == [Skipped];
    assert s[..1][..0] == [];
    assert Interpret(s[..1], 1, m, inputChannels) == Ok(t0);
    assert Interpret(s, 1, m, inputChannels) == Step(t0, 1, Layer(spec), 1, m);
  }

  // ---------------------------------------------------------------------
  // Edge emission
  // ---------------------------------------------------------------------

  /** Node identifiers: "Input", or "L<k>" for a layer position k. */
  datatype NodeId = InputNode | LayerNode(k: int)

  /** `existing_nodes`. */
  function ExistingNodes(layers: seq<LayerRecord>): set<NodeId>
  {
    set k | 0 <= k < |layers| :: LayerNode(layers[k].idx)
  }

  /** The endpoints of one edge: a negative source is Input, and so is a
    * source that names no record. */
  function EdgeIds(existing: set<NodeId>, e: (int, int)): (ids: (NodeId, NodeId))
    ensures ids.1 == LayerNode(e.1)
    ensures ids.0 == InputNode || ids.0 in existing
    ensures e.0 < 0 ==> ids.0 == InputNode
    ensures e.0 >= 0 && LayerNode(e.0) !in existing ==> ids.0 == InputNode
    ensures e.0 >= 0 && LayerNode(e.0) in existing ==> ids.0 == LayerNode(e.0)
  {
    var src := if e.0 >= 0 then LayerNode(e.0) else InputNode;
    (if src !in existing && src != InputNode then InputNode else src, LayerNode(e.1))
  }

  function RedirectedEdges(existing: set<NodeId>, edges: seq<(int, int)>): seq<(NodeId, NodeId)>
  {
    seq(|edges|, k requires 0 <= k < |edges| => EdgeIds(existing, edges[k]))
  }

  /** The edge loop of `draw_graph`: every pair of endpoints is emitted
    * once, in the order of its first occurrence, and every emitted source
    * is Input or a layer that exists. */
  method EmitEdges(layers: seq<LayerRecord>, edges: seq<(int, int)>) returns (emitted: seq<(NodeId, NodeId)>)
    ensures emitted == FirstSeen(RedirectedEdges(ExistingNodes(layers), edges))
    ensures NoDuplicates(emitted)
    ensures forall k :: 0 <= k < |edges| ==> EdgeIds(ExistingNodes(layers), edges[k]) in emitted
    ensures forall e :: e in emitted ==> e.0 == InputNode || e.0 in ExistingNodes(layers)
  {
    var existing := set n | n in layers :: LayerNode(n.idx);
    ExistingNodesOf(layers);
    var ids := RedirectedEdges(existing, edges);
    var edgeSet: set<(NodeId, NodeId)> := {};
    emitted := [];
    var i := 0;
    while i < |edges|
      invariant 0 <= i <= |edges|
      invariant emitted == FirstSeen(ids[..i])
      invariant Mirrors(edgeSet, emitted)
    {
      var (srcIdx, dstIdx) := edges[i];
      var key := EdgeKey(existing, srcIdx, dstIdx);
      assert key == ids[i];
      assert ids[..i + 1] == ids[..i] + [key];
      FirstSeenSnoc(ids[..i], key);
      if key !in edgeSet {
        MirrorsAdd(edgeSet, emitted, key);
        edgeSet := edgeSet + {key};
        emitted := emitted + [key];
      }
      i := i + 1;
    }
    assert ids[..i] == ids;
    FirstSeenDistinct(ids);
    EmittedEdges(existing, edges);
  }

  /** The node ids of one edge, computed as the loop body does. This is
    * EdgeIds once more, written as statements: with the computation inline,
    * the proof of EmitEdges is too expensive for the solver. */
  method EdgeKey(existing: set<NodeId>, srcIdx: int, dstIdx: int) returns (key: (NodeId, NodeId))
    ensures key == EdgeIds(existing, (srcIdx, dstIdx))
  {
    var srcId := if srcIdx >= 0 then LayerNode(srcIdx) else InputNode;
    var dstId := LayerNode(dstIdx);
    if srcId !in existing && srcId != InputNode {
      srcId := InputNode;
    }
    key := (srcId, dstId);
  }

  /** The set of seen keys holds exactly the emitted edges. */
  ghost predicate Mirrors(seen: set<(NodeId, NodeId)>, emitted: seq<(NodeId, NodeId)>)
  {
    forall e :: e in seen <==> e in emitted
  }

  lemma MirrorsAdd(seen: set<(NodeId, NodeId)>, emitted: seq<(NodeId, NodeId)>, x: (NodeId, NodeId))
    requires Mirrors(seen, emitted)
    ensures Mirrors(seen + {x}, emitted + [x])
  {
  }

  lemma ExistingNodesOf(layers: seq<LayerRecord>)
    ensures (set n | n in layers :: LayerNode(n.idx)) == ExistingNodes(layers)
  {
    forall x | x in ExistingNodes(layers) ensures x in set n | n in layers :: LayerNode(n.idx) {
      var k :| 0 <= k < |layers| && x == LayerNode(layers[k].idx);
      assert layers[k] in layers;
    }
  }

  /** Every redirected edge is among the emitted ones, and every emitted
    * source is Input or an existing node. */
  lemma EmittedEdges(existing: set<NodeId>, edges: seq<(int, int)>)
    ensures var emitted := FirstSeen(RedirectedEdges(existing, edges));
      && (forall k :: 0 <= k < |edges| ==> EdgeIds(existing, edges[k]) in emitted)
      && (forall e :: e in emitted ==> e.0 == InputNode || e.0 in existing)
  {
    var ids := RedirectedEdges(existing, edges);
    forall k | 0 <= k < |edges| ensures EdgeIds(existing, edges[k]) in FirstSeen(ids) {
      FirstSeenMembers(ids, ids[k]);
    }
    forall e | e in FirstSeen(ids) ensures e.0 == InputNode || e.0 in existing {
      FirstSeenMembers(ids, e);
    }
  }

  // ---------------------------------------------------------------------
  // The drawing as a whole
  // ---------------------------------------------------------------------

  /** What `draw_graph` declares to the backend, apart from styling. */
  datatype Drawing = Drawing(typeColors: map<string, string>, clusters: Clusters, edges: seq<(NodeId, NodeId)>)

  predicate InClusters(c: Clusters, n: LayerRecord)
  {
    n in c.backbone || n in c.neck || (c.head.Some? && c.head.value == n)
  }

  /** The declarations of `draw_graph`, with the head cluster as intended:
    * every record is drawn in some cluster, and every drawn node has a fill
    * colour. The head is the last record, where the source's own lookup
    * fails once an entry before the last record was skipped (see
    * HeadNodeAsWritten). */
  method DrawGraph(layers: seq<LayerRecord>, edges: seq<(int, int)>, backboneLen: nat) returns (g: Drawing)
    ensures g.clusters == Partition(layers, backboneLen)
    ensures g.clusters.head == HeadNode(layers)
    ensures forall t :: t in g.typeColors <==> t in Types(layers)
    ensures forall k :: 0 <= k < |FirstSeen(Types(layers))| ==>
      FirstSeen(Types(layers))[k] in g.typeColors &&
      g.typeColors[FirstSeen(Types(layers))[k]] == PaletteColor(k)
    ensures forall n :: n in layers ==> InClusters(g.clusters, n)
    ensures forall n :: InClusters(g.clusters, n) ==> n in layers && n.kind in g.typeColors
    ensures g.edges == FirstSeen(RedirectedEdges(ExistingNodes(layers), edges))
  {
    var typeColors, colorIdx := AssignColors(layers);
    var clusters := Partition(layers, backboneLen);
    ClustersAreLayers(layers, backboneLen);
    forall n | InClusters(clusters, n) ensures n.kind in typeColors {
      KindInTypes(layers, n);
    }
    var emitted := EmitEdges(layers, edges);
    g := Drawing(typeColors, clusters, emitted);
  }

  lemma KindInTypes(layers: seq<LayerRecord>, n: LayerRecord)
    requires n in layers
    ensures n.kind in Types(layers)
  {
    var q :| 0 <= q < |layers| && layers[q] == n;
    assert Types(layers)[q] == n.kind;
  }

  /** The clusters hold exactly the records. */
  lemma ClustersAreLayers(layers: seq<LayerRecord>, backboneLen: nat)
    ensures forall n :: n in layers <==> InClusters(Partition(layers, backboneLen), n)
  {
    var c := Partition(layers, backboneLen);
    if backboneLen < |layers| {
      var all := c.backbone + c.neck + [c.head.value];
      assert all == layers;
      forall n ensures n in all <==> InClusters(c, n) {
      }
    }
  }
}

/** The default visualization order and visibility of the layers of a design,
    built when the design tool is configured. */
module LayerInfo {
  import opened Seqs

  /** A bidirectional map between layers and their visualization ranks: the
      layer-to-rank direction and the rank-to-layer direction kept together. */
  datatype LayerOrder<L> = LayerOrder(rankOf: map<L, nat>, layerAt: map<nat, L>)

  /** The two directions of the map are inverse to each other. */
  predicate IsBijection<L(==)>(o: LayerOrder<L>)
  {
    && (forall l :: l in o.rankOf ==> o.rankOf[l] in o.layerAt && o.layerAt[o.rankOf[l]] == l)
    && (forall k :: k in o.layerAt ==> o.layerAt[k] in o.rankOf && o.rankOf[o.layerAt[k]] == k)
  }

  /** The ranks in use are exactly 0 .. N-1, where N is the number of layers. */
  ghost predicate DenseRanks<L>(o: LayerOrder<L>)
  {
    forall k: int :: k in o.layerAt <==> 0 <= k < |o.rankOf|
  }

  /** The first `i` layers of the list carry ranks 0 .. i-1 in list order, in
      both directions of the map. */
  ghost predicate NumberedPrefix<L>(layers: seq<L>, i: nat, rankOf: map<L, nat>, layerAt: map<nat, L>)
  {
    && i <= |layers|
    && (forall l :: l in rankOf ==> rankOf[l] < i && layers[rankOf[l]] == l)
    && (forall k :: k in layerAt ==> k < i)
    && (forall j :: 0 <= j < i ==> layers[j] in rankOf && rankOf[layers[j]] == j)
    && (forall j :: 0 <= j < i ==> j in layerAt && layerAt[j] == layers[j])
    && |rankOf| == i
  }

  /** Putting the next layer with the map's size as its rank adds a fresh key
      and extends the numbering. */
  lemma PutNextLayer<L>(layers: seq<L>, i: nat, rankOf: map<L, nat>, layerAt: map<nat, L>)
    requires Distinct(layers) && i < |layers| && NumberedPrefix(layers, i, rankOf, layerAt)
    ensures layers[i] !in rankOf
    ensures NumberedPrefix(layers, i + 1, rankOf[layers[i] := i], layerAt[i := layers[i]])
  {
    assert layers[i] !in rankOf by {
      forall l | l in rankOf
        ensures l != layers[i]
      {
        assert rankOf[l] < i && layers[rankOf[l]] == l;
      }
    }
  }

  /** A numbering of the whole list is a dense bijection. */
  lemma NumberedIsBijection<L>(layers: seq<L>, o: LayerOrder<L>)
    requires NumberedPrefix(layers, |layers|, o.rankOf, o.layerAt)
    ensures IsBijection(o) && DenseRanks(o)
  {
  }

  /** The loop over the design's layers: each layer is put into the order map
      with the map's current size as its rank, and is marked visible. The
      layer list of a design never repeats a layer. */
  method DefaultLayerInfo<L(==)>(layers: seq<L>) returns (order: LayerOrder<L>, visible: map<L, bool>)
    requires Distinct(layers)
    ensures order.rankOf.Keys == visible.Keys
    ensures forall l :: l in order.rankOf <==> l in layers
    ensures forall i :: 0 <= i < |layers| ==> layers[i] in order.rankOf && order.rankOf[layers[i]] == i
    ensures forall k :: 0 <= k < |layers| ==> k in order.layerAt && order.layerAt[k] == layers[k]
    ensures |order.rankOf| == |layers|
    ensures IsBijection(order) && DenseRanks(order)
    ensures forall l :: l in visible ==> visible[l]
  {
    var rankOf: map<L, nat> := map[];
    var layerAt: map<nat, L> := map[];
    visible := map[];
    var i := 0;
    while i < |layers|
      invariant NumberedPrefix(layers, i, rankOf, layerAt)
      invariant rankOf.Keys == visible.Keys
      invariant forall l :: l in visible ==> visible[l]
    {
      var layer := layers[i];
      var n := |rankOf|;
      assert n == i;
      PutNextLayer(layers, i, rankOf, layerAt);
      rankOf := rankOf[layer := n];
      layerAt := layerAt[n := layer];
      visible := visible[layer := true];
      i := i + 1;
    }
    order := LayerOrder(rankOf, layerAt);
    NumberedIsBijection(layers, order);
  }
}

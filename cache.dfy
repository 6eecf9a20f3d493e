/** `DelayedOutputCache`: the append-only list of one node's delayed outputs.
    Every output covers a half-open range of sample indices; the ranges are
    appended back to back from index 0, and each output has a flag telling
    whether its result has reached the store. A delayed output is modelled
    as its key (node id and range) and whether it was built from given
    values; the dask computation behind it is not modelled. */
module Cache {
  import opened Base
  import opened Utils
  import Store

  /** One delayed output: its dask key, and whether its data was given
      through `with_values` rather than computed by the operation. */
  datatype Delayed = Delayed(key: Key, given: bool)

  /** Where the data of one piece of a read comes from: the store (for an
      output flagged as stored) or the delayed output itself. */
  datatype Source = FromStore(node: NodeKey, range: Slice) | FromTask(output: Delayed)

  /** One piece of a read: the data of one output, cut down to the indices
      `range` the read needs; `sub` is the cut relative to the output's own
      start when only part of the output is needed. */
  datatype Piece = Piece(src: Source, range: Slice, sub: Option<Slice>)

  /** What `__getitem__` hands back: an empty array, the single piece, or
      the pieces stacked under the requested slice. */
  datatype View = Empty | Single(piece: Piece) | Stacked(sl: Slice, pieces: seq<Piece>)

  datatype CacheError = NonMatchingSlice | KeyNotFound

  /** `len(cache)`: the summed lengths of the output ranges. */
  ghost function Total(outs: seq<Delayed>): nat
    decreases |outs|
  {
    if outs == [] then 0 else Total(outs[..|outs| - 1]) + SLen(outs[|outs| - 1].key.sl)
  }

  /** Each output starts where the ones before it end. */
  ghost predicate Tiled(outs: seq<Delayed>) {
    forall i :: 0 <= i < |outs| ==> outs[i].key.sl.start == Total(outs[..i])
  }

  lemma TotalStep(outs: seq<Delayed>, i: nat)
    requires i < |outs|
    ensures Total(outs[..i + 1]) == Total(outs[..i]) + SLen(outs[i].key.sl)
  {
    assert outs[..i + 1][..i] == outs[..i];
  }

  lemma {:induction false} TotalMono(outs: seq<Delayed>, i: nat, j: nat)
    requires i <= j <= |outs|
    ensures Total(outs[..i]) <= Total(outs[..j])
    decreases j - i
  {
    if i < j {
      TotalStep(outs, j - 1);
      TotalMono(outs, i, j - 1);
    }
  }

  /** An output of a tiled list holds exactly the indices between the total
      before it and the total after it. */
  lemma ChunkBounds(outs: seq<Delayed>, i: nat, k: int)
    requires Tiled(outs) && i < |outs|
    ensures Contains(outs[i].key.sl, k) <==> Total(outs[..i]) <= k < Total(outs[..i + 1])
  {
    TotalStep(outs, i);
  }

  /** No index lies in two outputs. */
  lemma TilingDisjoint(outs: seq<Delayed>, i: nat, j: nat, k: int)
    requires Tiled(outs) && i < |outs| && j < |outs|
    requires Contains(outs[i].key.sl, k) && Contains(outs[j].key.sl, k)
    ensures i == j
  {
    ChunkBounds(outs, i, k);
    ChunkBounds(outs, j, k);
    if i < j {
      TotalMono(outs, i + 1, j);
    } else if j < i {
      TotalMono(outs, j + 1, i);
    }
  }

  /** The outputs cover exactly the indices `[0, len)`: every index in there
      lies in some output, and no output holds an index outside. */
  lemma {:induction false} TilingCovers(outs: seq<Delayed>, k: int) returns (i: nat)
    requires Tiled(outs) && 0 <= k < Total(outs)
    ensures i < |outs| && Contains(outs[i].key.sl, k)
    decreases |outs|
  {
    var n := |outs| - 1;
    assert outs[..n + 1] == outs;
    if k >= Total(outs[..n]) {
      i := n;
      ChunkBounds(outs, n, k);
    } else {
      var pre := outs[..n];
      assert forall j :: 0 <= j < |pre| ==> pre[..j] == outs[..j];
      i := TilingCovers(pre, k);
    }
  }

  /** Appending an output that starts at the current length keeps the
      tiling, and grows the length by the output's length. */
  lemma AppendTiled(outs: seq<Delayed>, o: Delayed)
    requires Tiled(outs) && o.key.sl.start == Total(outs)
    ensures Tiled(outs + [o]) && Total(outs + [o]) == Total(outs) + SLen(o.key.sl)
  {
    var r := outs + [o];
    assert r[..|outs|] == outs;
    forall i | 0 <= i < |r| ensures r[i].key.sl.start == Total(r[..i]) {
      if i < |outs| {
        assert r[..i] == outs[..i];
      }
    }
  }

  /** The piece a read of `sl` takes from output `o`. */
  function PieceOf(o: Delayed, stored: bool, node: NodeKey, sl: Slice): (p: Piece)
    ensures p.range == Intersect(o.key.sl, sl)
    ensures p.sub.None? <==> SLen(p.range) == SLen(o.key.sl)
    ensures p.sub.Some? ==> forall k :: Contains(p.sub.value, k) <==> Contains(p.range, k + o.key.sl.start)
    ensures stored <==> p.src.FromStore?
  {
    var isl := Intersect(o.key.sl, sl);
    var src := if stored then FromStore(node, o.key.sl) else FromTask(o);
    if SLen(isl) != SLen(o.key.sl) then Piece(src, isl, Some(Offset(isl, o.key.sl.start)))
    else Piece(src, isl, None)
  }

  /** `_get_output_datalist(sl)`: in order, the piece of every output whose
      range meets `sl`. */
  ghost function Datalist(outs: seq<Delayed>, stored: seq<bool>, node: NodeKey, sl: Slice): (r: seq<Piece>)
    requires |stored| == |outs|
    ensures |r| <= |outs|
    ensures forall j :: 0 <= j < |r| ==> SLen(r[j].range) > 0 && sl.start <= r[j].range.start && r[j].range.stop <= sl.stop
    decreases |outs|
  {
    if outs == [] then []
    else
      var n := |outs| - 1;
      Datalist(outs[..n], stored[..n], node, sl)
        + (if SLen(Intersect(outs[n].key.sl, sl)) == 0 then [] else [PieceOf(outs[n], stored[n], node, sl)])
  }

  /** The outputs a read of `sl` uses, in order. */
  ghost function Hits(outs: seq<Delayed>, sl: Slice): (h: seq<nat>)
    ensures forall j :: 0 <= j < |h| ==> h[j] < |outs|
    decreases |outs|
  {
    if outs == [] then []
    else
      var n := |outs| - 1;
      Hits(outs[..n], sl) + (if SLen(Intersect(outs[n].key.sl, sl)) == 0 then [] else [n])
  }

  /** The outputs a read uses are listed in range order, and they are
      exactly the outputs that meet the slice. */
  lemma {:induction false} HitsExact(outs: seq<Delayed>, sl: Slice)
    ensures var h := Hits(outs, sl);
      && (forall a, b :: 0 <= a < b < |h| ==> h[a] < h[b])
      && (forall i :: i in h <==> 0 <= i < |outs| && SLen(Intersect(outs[i].key.sl, sl)) > 0)
    decreases |outs|
  {
    if outs != [] {
      var n := |outs| - 1;
      HitsExact(outs[..n], sl);
      var h0 := Hits(outs[..n], sl);
      assert forall j :: 0 <= j < |h0| ==> h0[j] < n;
      assert forall i :: 0 <= i < n ==> outs[..n][i] == outs[i];
    }
  }

  /** The read takes one piece from each output `Hits` lists, in that
      order: with `HitsExact`, one piece per output that meets the slice,
      in range order, and none from any other output. */
  lemma {:induction false} DatalistPieces(outs: seq<Delayed>, stored: seq<bool>, node: NodeKey, sl: Slice)
    requires |stored| == |outs|
    ensures |Datalist(outs, stored, node, sl)| == |Hits(outs, sl)|
    ensures forall j :: 0 <= j < |Hits(outs, sl)| ==>
      Datalist(outs, stored, node, sl)[j] == PieceOf(outs[Hits(outs, sl)[j]], stored[Hits(outs, sl)[j]], node, sl)
    decreases |outs|
  {
    if outs != [] {
      var n := |outs| - 1;
      DatalistPieces(outs[..n], stored[..n], node, sl);
    }
  }

  /** The length the pieces of a read cover. */
  function Covered(ps: seq<Piece>): nat
    decreases |ps|
  {
    if ps == [] then 0 else Covered(ps[..|ps| - 1]) + SLen(ps[|ps| - 1].range)
  }

  lemma CoveredStep(ps: seq<Piece>, p: Piece)
    ensures Covered(ps + [p]) == Covered(ps) + SLen(p.range)
  {
    assert (ps + [p])[..|ps|] == ps;
  }

  /** An output that starts at `t` and is followed by the total `u`
      meets `sl` exactly where `[t, u)` does. */
  lemma OutputSpan(o: Slice, t: int, u: int, sl: Slice)
    requires o.start == t && u == t + SLen(o)
    ensures SLen(Intersect(o, sl)) == SLen(Intersect(Slice(t, u), sl))
  {
  }

  /** On a tiled cache the pieces of a read of `sl` cover exactly the part
      of `sl` already generated, `sl` intersected with `[0, len)`. */
  lemma {:induction false} DatalistCovers(outs: seq<Delayed>, stored: seq<bool>, node: NodeKey, sl: Slice)
    requires |stored| == |outs| && Tiled(outs)
    ensures Covered(Datalist(outs, stored, node, sl)) == SLen(Intersect(Slice(0, Total(outs)), sl))
    decreases |outs|
  {
    if outs != [] {
      var n := |outs| - 1;
      var pre := outs[..n];
      assert forall j :: 0 <= j < |pre| ==> pre[..j] == outs[..j];
      DatalistCovers(pre, stored[..n], node, sl);
      var o := outs[n];
      var t0 := Total(pre);
      OutputSpan(o.key.sl, t0, Total(outs), sl);
      IntersectSplit(0, t0, Total(outs), sl);
      DatalistStep(outs, stored, node, sl);
    }
  }

  /** The last output adds the length of its overlap with `sl` to what a
      read covers. */
  lemma DatalistStep(outs: seq<Delayed>, stored: seq<bool>, node: NodeKey, sl: Slice)
    requires |stored| == |outs| && outs != []
    ensures var n := |outs| - 1;
      Covered(Datalist(outs, stored, node, sl))
        == Covered(Datalist(outs[..n], stored[..n], node, sl)) + SLen(Intersect(outs[n].key.sl, sl))
  {
    var n := |outs| - 1;
    var d0 := Datalist(outs[..n], stored[..n], node, sl);
    if SLen(Intersect(outs[n].key.sl, sl)) != 0 {
      CoveredStep(d0, PieceOf(outs[n], stored[n], node, sl));
    } else {
      assert d0 + [] == d0;
    }
  }

  /** The pieces a view is made of, in order. */
  function Pieces(v: View): seq<Piece>
  {
    match v
    case Empty => []
    case Single(p) => [p]
    case Stacked(_, ps) => ps
  }

  /** What `__getitem__` builds from the pieces: nothing, the one piece, or
      the pieces stacked, and in every case the view gives back exactly the
      pieces it was built from. */
  function ViewOf(ps: seq<Piece>, sl: Slice): (v: View)
    ensures Pieces(v) == ps
    ensures |ps| == 0 <==> v.Empty?
    ensures |ps| == 1 ==> v == Single(ps[0])
    ensures |ps| > 1 ==> v == Stacked(sl, ps)
  {
    if |ps| == 0 then Empty else if |ps| == 1 then Single(ps[0]) else Stacked(sl, ps)
  }

  /** The positions of the outputs whose key is `key`, in order. */
  function Matches(outs: seq<Delayed>, key: Key): (m: seq<nat>)
    ensures forall j :: 0 <= j < |m| ==> m[j] < |outs| && outs[m[j]].key == key
    decreases |outs|
  {
    if outs == [] then []
    else
      var n := |outs| - 1;
      Matches(outs[..n], key) + (if outs[n].key == key then [n] else [])
  }

  lemma {:induction false} MatchesNone(outs: seq<Delayed>, key: Key)
    requires forall j :: 0 <= j < |outs| ==> outs[j].key != key
    ensures Matches(outs, key) == []
    decreases |outs|
  {
    if outs != [] {
      MatchesNone(outs[..|outs| - 1], key);
    }
  }

  /** The positions `Matches` lists are in increasing order, and they are
      all the positions holding `key`. */
  lemma {:induction false} MatchesExact(outs: seq<Delayed>, key: Key)
    ensures var m := Matches(outs, key);
      && (forall a, b :: 0 <= a < b < |m| ==> m[a] < m[b])
      && (forall i :: i in m <==> 0 <= i < |outs| && outs[i].key == key)
    decreases |outs|
  {
    if outs != [] {
      MatchesExact(outs[..|outs| - 1], key);
    }
  }

  lemma {:induction false} MatchesOne(outs: seq<Delayed>, key: Key, i: nat)
    requires i < |outs| && outs[i].key == key
    requires forall j :: 0 <= j < |outs| && outs[j].key == key ==> j == i
    ensures Matches(outs, key) == [i]
    decreases |outs|
  {
    var n := |outs| - 1;
    if i < n {
      MatchesOne(outs[..n], key, i);
    } else {
      MatchesNone(outs[..n], key);
    }
  }

  /** Two outputs of a tiled cache with the same key are the same output,
      once that key's range is not empty. */
  lemma SameKeySameOutput(outs: seq<Delayed>, i: nat, j: nat)
    requires Tiled(outs) && i < |outs| && j < |outs| && outs[j].key == outs[i].key
    requires SLen(outs[i].key.sl) > 0
    ensures i == j
  {
    TilingDisjoint(outs, i, j, outs[i].key.sl.start);
  }

  /** The keys of a tiled cache are distinct where the ranges are not
      empty, so the completion callback of such an output finds exactly
      that output. */
  lemma KeysDistinct(outs: seq<Delayed>, i: nat)
    requires Tiled(outs) && i < |outs| && SLen(outs[i].key.sl) > 0
    ensures Matches(outs, outs[i].key) == [i]
  {
    forall j | 0 <= j < |outs| && outs[j].key == outs[i].key ensures j == i {
      SameKeySameOutput(outs, i, j);
    }
    MatchesOne(outs, outs[i].key, i);
  }

  /** The fields of one `DelayedOutputCache` as a value: its outputs, their
      stored flags, the node id it is bound to and its store. The inference
      task keeps each node's cache in this form. */
  datatype CacheState = CacheState(outputs: seq<Delayed>, stored: seq<bool>, nodeId: NodeKey, store: Option<Store.Store>)

  /** A cache in a consistent state: one flag per output, outputs tiled. */
  ghost predicate Sound(st: CacheState) {
    |st.stored| == |st.outputs| && Tiled(st.outputs)
  }

  /** `append` on a cache whose length the new output starts at. */
  function Appended(st: CacheState, o: Delayed): (r: CacheState)
    requires Sound(st) && o.key.sl.start == Total(st.outputs)
    ensures Sound(r) && r.nodeId == st.nodeId && r.store == st.store
    ensures r.outputs == st.outputs + [o] && r.stored == st.stored + [false]
    ensures Total(r.outputs) == Total(st.outputs) + SLen(o.key.sl)
  {
    AppendTiled(st.outputs, o);
    st.(outputs := st.outputs + [o], stored := st.stored + [false])
  }

  /** `reset(new_node_id)`: no outputs, no flags, the new id, the same store. */
  function Cleared(st: CacheState, newId: NodeKey): (r: CacheState)
    ensures Sound(r) && Total(r.outputs) == 0 && r.nodeId == newId && r.store == st.store
  {
    CacheState([], [], newId, st.store)
  }

  /** The cache `b` holds every output and flag of `a`, in place, and is
      bound to the same id and store: it has only been appended to. */
  ghost predicate Grew(a: CacheState, b: CacheState) {
    a.outputs <= b.outputs && a.stored <= b.stored && a.nodeId == b.nodeId && a.store == b.store
  }

  /** `__len__`: sum the lengths of the output ranges. */
  method CacheLength(outs: seq<Delayed>) returns (l: nat)
    ensures l == Total(outs)
  {
    l := 0;
    var i := 0;
    while i < |outs|
      invariant 0 <= i <= |outs| && l == Total(outs[..i])
    {
      TotalStep(outs, i);
      l := l + SLen(outs[i].key.sl);
      i := i + 1;
    }
    assert outs[..i] == outs;
  }

  /** `_get_output_datalist(sl)`: walk the outputs in order and keep the
      part of each that meets `sl`. */
  method ReadDatalist(st: CacheState, sl: Slice) returns (r: seq<Piece>)
    requires |st.stored| == |st.outputs|
    ensures r == Datalist(st.outputs, st.stored, st.nodeId, sl)
  {
    var outs, flags := st.outputs, st.stored;
    r := [];
    var i := 0;
    while i < |outs|
      invariant 0 <= i <= |outs|
      invariant r == Datalist(outs[..i], flags[..i], st.nodeId, sl)
    {
      var o := outs[i];
      assert outs[..i + 1][..i] == outs[..i] && flags[..i + 1][..i] == flags[..i];
      var isl := Intersect(o.key.sl, sl);
      if SLen(isl) != 0 {
        var src := if flags[i] then FromStore(st.nodeId, o.key.sl) else FromTask(o);
        var p := if SLen(isl) != SLen(o.key.sl) then Piece(src, isl, Some(Offset(isl, o.key.sl.start)))
                 else Piece(src, isl, None);
        r := r + [p];
      }
      i := i + 1;
    }
    assert outs[..i] == outs && flags[..i] == flags;
  }

  /** `__getitem__(sl)`: nothing, the one piece, or the pieces stacked. */
  method ReadView(st: CacheState, sl: Slice) returns (v: View)
    requires |st.stored| == |st.outputs|
    ensures v == ViewOf(Datalist(st.outputs, st.stored, st.nodeId, sl), sl)
    ensures Tiled(st.outputs) ==> Covered(Pieces(v)) == SLen(Intersect(Slice(0, Total(st.outputs)), sl))
  {
    var ps := ReadDatalist(st, sl);
    if |ps| == 0 {
      v := Empty;
    } else if |ps| == 1 {
      v := Single(ps[0]);
    } else {
      v := Stacked(sl, ps);
    }
    if Tiled(st.outputs) {
      DatalistCovers(st.outputs, st.stored, st.nodeId, sl);
    }
  }

  class DelayedOutputCache {
    /** `_delayed_outputs`, `_stored_mask`, `_store`, `_node_id`. */
    var outputs: seq<Delayed>
    var stored: seq<bool>
    const store: Option<Store.Store>
    var nodeId: NodeKey

    ghost predicate Valid()
      reads this
    {
      Sound(State())
    }

    /** The fields as a value. */
    function State(): CacheState
      reads this
    {
      CacheState(outputs, stored, nodeId, store)
    }

    /** A cache for `nodeId` over a store already prepared by
        `Store.PrepareStore`. */
    constructor (nodeId: NodeKey, store: Option<Store.Store>)
      ensures Valid() && outputs == [] && stored == [] && this.nodeId == nodeId && this.store == store
    {
      outputs := [];
      stored := [];
      this.store := store;
      this.nodeId := nodeId;
    }

    /** `__len__`. */
    method Length() returns (l: nat)
      ensures l == Total(outputs)
    {
      l := CacheLength(outputs);
    }

    /** `append`: only an output starting exactly at the current length is
        taken; it gets a `False` stored flag. Writing it to the store is
        not modelled. */
    method Append(o: Delayed) returns (err: Option<CacheError>)
      requires Valid()
      modifies this
      ensures Valid() && nodeId == old(nodeId)
      ensures err.None? <==> o.key.sl.start == old(Total(outputs))
      ensures err.None? ==> State() == Appended(old(State()), o)
      ensures err.Some? ==> err == Some(NonMatchingSlice) && State() == old(State())
    {
      var l := Length();
      if l != o.key.sl.start {
        return Some(NonMatchingSlice);
      }
      AppendTiled(outputs, o);
      outputs := outputs + [o];
      stored := stored + [false];
      return None;
    }

    /** `reset(new_node_id)`: forget every output and take the new id.
        Clearing the store's copy is not modelled. */
    method Reset(newId: NodeKey)
      modifies this
      ensures Valid() && State() == Cleared(old(State()), newId)
    {
      outputs := [];
      stored := [];
      nodeId := newId;
    }

    /** `__getitem__(sl)`. */
    method GetItem(sl: Slice) returns (v: View)
      requires Valid()
      ensures v == ViewOf(Datalist(outputs, stored, nodeId, sl), sl)
      ensures Covered(Pieces(v)) == SLen(Intersect(Slice(0, Total(outputs)), sl))
    {
      v := ReadView(State(), sl);
    }

    /** `_set_stored(key)`: flag the one output with this key as stored; no
        match or several matches raise `LookupError` and change nothing. */
    method SetStored(key: Key) returns (err: Option<CacheError>)
      requires Valid()
      modifies this
      ensures Valid() && outputs == old(outputs) && nodeId == old(nodeId)
      ensures err.None? <==> |Matches(old(outputs), key)| == 1
      ensures err.None? ==> stored == old(stored)[Matches(old(outputs), key)[0] := true]
      ensures err.Some? ==> err == Some(KeyNotFound) && stored == old(stored)
    {
      var m := Matches(outputs, key);
      if |m| != 1 {
        return Some(KeyNotFound);
      }
      stored := stored[m[0] := true];
      return None;
    }
  }
}

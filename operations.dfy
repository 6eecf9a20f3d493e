/** The `Operation` engine: every node of an inference task keeps a cache of
    delayed outputs, a generate index and a reset counter. Requests for a
    slice extend the caches of the node and of its ancestors forward, never
    recomputing a range already present; resets forget a node's outputs,
    give it a new version and, by default, reset everything below it.

    The inference task (a `Graph` subclass defined in
    `elfi/inference_task.py`, which is not part of this model) is modelled
    as the class `InferenceTask`, which owns the graph and, per node id, the
    fields that the source keeps on each `Operation` object:
    `_delayed_outputs` (the state of its `DelayedOutputCache`, as a
    `CacheState` value), `_generate_index` and `_num_resets`. The recursive
    walks of `get_slice`, `_create_input_dict`, `generate` and `reset` are
    methods over these values; the class methods run them on its fields. */
module Operations {
  import opened Base
  import opened Utils
  import opened Cache
  import Store
  import Graph

  /** `_create_input_dict`: the parents' data over the slice, the slice
      length and its start. */
  datatype InputDict = InputDict(data: seq<View>, n: int, index: int)

  /** What the slice engine reads of the inference task besides the caches: its
      name and, per node, its name, its parents and its version. */
  datatype Layout = Layout(task: string, names: seq<string>, parents: seq<seq<nat>>, versions: seq<nat>)

  /** `Operation.id`: task name, node name and version. */
  function IdOf(t: Layout, v: nat): (k: NodeKey)
    requires v < |t.names| && v < |t.versions|
    ensures k.task == t.task && k.node == t.names[v] && k.version == t.versions[v]
  {
    NodeKey(t.task, t.names[v], t.versions[v])
  }

  /** `_create_delayed_output(sl, input_dict, with_values)`: the output over
      `sl`, keyed by `make_key(self.id, sl)`; it takes the given values when
      the node's name is among the names `given` of `with_values`. */
  function DelayedOutput(t: Layout, v: nat, sl: Slice, given: set<string>): (o: Delayed)
    requires v < |t.names| && v < |t.versions|
    ensures o.key.sl == sl && o.key.id == IdOf(t, v)
    ensures o.given <==> t.names[v] in given
  {
    Delayed(Key(IdOf(t, v), sl), t.names[v] in given)
  }

  /** What a read of `sl` from the cache `st` returns (`__getitem__`). */
  ghost function ViewAt(st: CacheState, sl: Slice): View
    requires |st.stored| == |st.outputs|
  {
    ViewOf(Datalist(st.outputs, st.stored, st.nodeId, sl), sl)
  }

  /** Every output in the list covers at least one index. */
  ghost predicate NonEmpty(outs: seq<Delayed>) {
    forall j :: 0 <= j < |outs| ==> SLen(outs[j].key.sl) > 0
  }

  /** Every output in the list was keyed with version `version` of its node. */
  ghost predicate OfVersion(outs: seq<Delayed>, version: nat) {
    forall j :: 0 <= j < |outs| ==> outs[j].key.id.version == version
  }

  /** One node's cache: sound, free of empty outputs, at least as long as
      the node's generate index, and holding only outputs of the node's
      current version, the version its id is bound to. */
  ghost predicate CacheOk(st: CacheState, genIndex: int, version: nat) {
    && Sound(st) && NonEmpty(st.outputs) && genIndex <= Total(st.outputs)
    && st.nodeId.version == version && OfVersion(st.outputs, version)
  }

  /** `CacheOk` at every node. */
  ghost predicate AllOk(caches: seq<CacheState>, genIndex: seq<int>, versions: seq<nat>) {
    && |genIndex| == |caches| && |versions| == |caches|
    && forall u :: 0 <= u < |caches| ==> CacheOk(caches[u], genIndex[u], versions[u])
  }

  /** A fresh empty cache of version 0 joins an ok task. */
  lemma AllOkGrow(caches: seq<CacheState>, genIndex: seq<int>, versions: seq<nat>, st: CacheState)
    requires AllOk(caches, genIndex, versions) && st.outputs == [] && st.stored == [] && st.nodeId.version == 0
    ensures AllOk(caches + [st], genIndex + [0], versions + [0])
  {
    var c, gi, vs := caches + [st], genIndex + [0], versions + [0];
    forall u | 0 <= u < |c| ensures CacheOk(c[u], gi[u], vs[u]) {
      if u < |caches| {
        assert c[u] == caches[u] && gi[u] == genIndex[u] && vs[u] == versions[u];
      }
    }
  }

  /** The caches fit the layout: one per node, every parent ranked below its
      children, and every cache ok. */
  ghost predicate Fits(t: Layout, level: seq<nat>, caches: seq<CacheState>, genIndex: seq<int>) {
    && |t.names| == |caches| && |t.parents| == |caches|
    && Graph.RankedUp(t.parents, level)
    && AllOk(caches, genIndex, t.versions)
  }

  /** Every cache of `b` has grown from the one of `a` at the same node. */
  ghost predicate Grown(a: seq<CacheState>, b: seq<CacheState>) {
    |a| == |b| && forall u :: 0 <= u < |a| ==> Grew(a[u], b[u])
  }

  lemma GrownTrans(a: seq<CacheState>, b: seq<CacheState>, c: seq<CacheState>)
    requires Grown(a, b) && Grown(b, c)
    ensures Grown(a, c)
  {
    forall u | 0 <= u < |a| ensures Grew(a[u], c[u]) {
      assert Grew(a[u], b[u]) && Grew(b[u], c[u]);
    }
  }

  /** Every node of `ps` has a cache reaching `stop`. */
  ghost predicate Reached(ps: seq<nat>, caches: seq<CacheState>, stop: int) {
    forall p :: p in ps ==> p < |caches| && Total(caches[p].outputs) >= stop
  }

  lemma PrefixTotal(a: seq<Delayed>, b: seq<Delayed>)
    requires a <= b
    ensures Total(a) <= Total(b)
  {
    TotalMono(b, |a|, |b|);
    assert b[..|a|] == a && b[..|b|] == b;
  }

  /** Appending a non-empty output of the current version keeps a cache ok. */
  lemma AppendOk(st: CacheState, genIndex: int, version: nat, o: Delayed)
    requires CacheOk(st, genIndex, version) && o.key.sl.start == Total(st.outputs)
    requires SLen(o.key.sl) > 0 && o.key.id.version == version
    ensures CacheOk(Appended(st, o), genIndex, version)
  {
    var r := Appended(st, o);
    assert forall j :: 0 <= j < |st.outputs| ==> r.outputs[j] == st.outputs[j];
  }

  /** Replacing one cache by an ok one keeps every cache ok. */
  lemma AllOkSet(caches: seq<CacheState>, genIndex: seq<int>, versions: seq<nat>, v: nat, st: CacheState)
    requires AllOk(caches, genIndex, versions) && v < |caches| && CacheOk(st, genIndex[v], versions[v])
    ensures AllOk(caches[v := st], genIndex, versions)
  {
    forall u | 0 <= u < |caches| ensures CacheOk(caches[v := st][u], genIndex[u], versions[u]) {
      if u != v {
        assert caches[v := st][u] == caches[u];
      }
    }
  }

  /** Caches that only grow stay as long as they were. */
  lemma ReachedGrown(ps: seq<nat>, a: seq<CacheState>, b: seq<CacheState>, stop: int)
    requires Reached(ps, a, stop) && Grown(a, b)
    ensures Reached(ps, b, stop)
  {
    forall p | p in ps ensures p < |b| && Total(b[p].outputs) >= stop {
      PrefixTotal(a[p].outputs, b[p].outputs);
    }
  }

  lemma ReachedAll(ps: seq<nat>, caches: seq<CacheState>, stop: int)
    requires forall j :: 0 <= j < |ps| ==> ps[j] < |caches| && Total(caches[ps[j]].outputs) >= stop
    ensures Reached(ps, caches, stop)
  {
  }

  /** The parents' data of `_create_input_dict` after one more parent: the
      request for parent `ps[i]` took the caches from `a` to `b` and
      returned `d`. */
  lemma DataStep(ps: seq<nat>, i: nat, a: seq<CacheState>, b: seq<CacheState>, genIndex: seq<int>, versions: seq<nat>,
                 data: seq<View>, d: View, sl: Slice)
    requires i < |ps| && |data| == i && |a| == |b| && forall j :: 0 <= j < |ps| ==> ps[j] < |a|
    requires AllOk(a, genIndex, versions) && AllOk(b, genIndex, versions)
    requires forall j :: 0 <= j < i ==> Total(a[ps[j]].outputs) >= sl.stop && data[j] == ViewAt(a[ps[j]], sl)
    requires forall u :: 0 <= u < |a| && Total(a[u].outputs) >= sl.stop ==> b[u] == a[u]
    requires Total(b[ps[i]].outputs) >= sl.stop && d == ViewAt(b[ps[i]], sl)
    ensures forall j :: 0 <= j < i + 1 ==> Total(b[ps[j]].outputs) >= sl.stop && (data + [d])[j] == ViewAt(b[ps[j]], sl)
  {
    forall j | 0 <= j < i + 1 ensures Total(b[ps[j]].outputs) >= sl.stop && (data + [d])[j] == ViewAt(b[ps[j]], sl) {
      if j < i {
        assert b[ps[j]] == a[ps[j]];
      }
    }
  }

  /** `v` is not among its own ancestors. */
  lemma NotOwnAncestor(pa: seq<seq<nat>>, level: seq<nat>, v: nat)
    requires Graph.RankedUp(pa, level) && v < |pa|
    ensures v !in Graph.Anc(pa, level, v)
  {
    forall u | u in Graph.Anc(pa, level, v) ensures u < |pa| && level[u] < level[v] {
      Graph.AncBelow(pa, level, v, u);
    }
  }

  /** What a `get_slice` on `v` that appends leaves in place: the request to
      the parents took the caches from `a` to `b`, changing only the
      ancestors `anc` of `v`; the append to `v` then took them from `b` to `c`. */
  lemma ExtendFrame(a: seq<CacheState>, b: seq<CacheState>, c: seq<CacheState>,
                    v: nat, anc: set<nat>, o: Delayed, stop: int)
    requires Grown(a, b) && v < |a| && v !in anc
    requires forall u :: 0 <= u < |a| && Total(a[u].outputs) >= stop ==> b[u] == a[u]
    requires forall u :: 0 <= u < |a| && u !in anc ==> b[u] == a[u]
    requires Sound(b[v]) && o.key.sl.start == Total(b[v].outputs) && Total(a[v].outputs) < stop
    requires c == b[v := Appended(b[v], o)]
    ensures Grown(a, c) && Grown(b, c)
    ensures forall u :: 0 <= u < |a| && Total(a[u].outputs) >= stop ==> c[u] == a[u]
    ensures forall u :: 0 <= u < |a| && u != v && u !in anc ==> c[u] == a[u]
  {
  }

  /** One `get_slice(sl)` on a parent `p` inside `_create_input_dict`: the
      caches went from `a` to `b` before the call, changing only nodes of
      `done`, and from `b` to `c` in it, changing only `p` and its ancestors
      `ap`. */
  lemma ParentFrame(a: seq<CacheState>, b: seq<CacheState>, c: seq<CacheState>,
                    done: set<nat>, p: nat, ap: set<nat>, stop: int)
    requires Grown(a, b) && Grown(b, c)
    requires forall u :: 0 <= u < |a| && Total(a[u].outputs) >= stop ==> b[u] == a[u]
    requires forall u :: 0 <= u < |a| && u !in done ==> b[u] == a[u]
    requires forall u :: 0 <= u < |b| && Total(b[u].outputs) >= stop ==> c[u] == b[u]
    requires forall u :: 0 <= u < |b| && u != p && u !in ap ==> c[u] == b[u]
    ensures Grown(a, c)
    ensures forall u :: 0 <= u < |a| && Total(a[u].outputs) >= stop ==> c[u] == a[u]
    ensures forall u :: 0 <= u < |a| && u !in done + {p} + ap ==> c[u] == a[u]
  {
    GrownTrans(a, b, c);
  }

  /** The ancestors reached through parents `0..i` of `v`, from those
      reached through `0..i-1` and the ancestors `ap` of parent `i`. */
  lemma AncNext(pa: seq<seq<nat>>, level: seq<nat>, v: nat, i: nat, done: set<nat>, ap: set<nat>) returns (next: set<nat>)
    requires Graph.RankedUp(pa, level) && v < |pa| && i < |pa[v]| && pa[v][i] < |pa|
    requires done == Graph.AncUpTo(pa, level, v, i) && ap == Graph.Anc(pa, level, pa[v][i])
    ensures next == done + {pa[v][i]} + ap && next == Graph.AncUpTo(pa, level, v, i + 1)
  {
    assert pa[v][i] in pa[v];
    next := done + {pa[v][i]} + ap;
  }

  /** Once every parent is done, `done` is the set of ancestors. */
  lemma AncDone(pa: seq<seq<nat>>, level: seq<nat>, v: nat, k: nat, done: set<nat>)
    requires Graph.RankedUp(pa, level) && v < |pa| && k == |pa[v]| && done == Graph.AncUpTo(pa, level, v, k)
    ensures done == Graph.Anc(pa, level, v)
  {
  }

  /** A stale key, one made under another version of the node, matches no
      output of a cache that holds only current outputs: its completion
      callback raises `LookupError` instead of flagging an output. */
  lemma StaleKeyMatchesNothing(st: CacheState, genIndex: int, version: nat, key: Key)
    requires CacheOk(st, genIndex, version) && key.id.version != version
    ensures Matches(st.outputs, key) == []
  {
    MatchesNone(st.outputs, key);
  }

  /** What `get_slice(sl, with_values)` on node `v` promises, taking the
      caches from `a` to `b` and returning `view`: when the cache of `v` is
      shorter than `sl.stop`, it gains exactly one output over the missing
      range `[len, sl.stop)`, after every parent has reached `sl.stop`;
      otherwise nothing changes at all. Nothing is recomputed: a cache that
      already reached `sl.stop` is left alone, and so is every node other
      than `v` and its ancestors. `view` is the slice as it now stands. */
  ghost predicate SliceServed(t: Layout, level: seq<nat>, a: seq<CacheState>, b: seq<CacheState>,
                              v: nat, sl: Slice, given: set<string>, view: View)
    requires Graph.RankedUp(t.parents, level) && v < |t.parents| && v < |t.names| && v < |t.versions|
    requires v < |a| && |b| == |a| && |b[v].stored| == |b[v].outputs|
  {
    && Grown(a, b)
    && (forall u :: 0 <= u < |a| && Total(a[u].outputs) >= sl.stop ==> b[u] == a[u])
    && (forall u :: 0 <= u < |a| && u != v && u !in Graph.Anc(t.parents, level, v) ==> b[u] == a[u])
    && (Total(a[v].outputs) >= sl.stop ==> b == a)
    && (var len := Total(a[v].outputs);
        && (len < sl.stop ==> b[v].outputs == a[v].outputs + [DelayedOutput(t, v, Slice(len, sl.stop), given)])
        && (len < sl.stop ==> Reached(t.parents[v], b, sl.stop))
        && Total(b[v].outputs) == Max(len, sl.stop))
    && view == ViewAt(b[v], sl)
  }

  /** `get_slice(sl, with_values)` on node `v`: when its cache is shorter
      than `sl.stop`, first request the missing range `[len, sl.stop)` from
      every parent, then append one output over that range. */
  method GetSliceIn(t: Layout, ghost level: seq<nat>, caches: seq<CacheState>, ghost genIndex: seq<int>,
                    v: nat, sl: Slice, given: set<string>) returns (r: seq<CacheState>, view: View)
    requires Fits(t, level, caches, genIndex) && v < |caches|
    decreases level[v], 2
    ensures Fits(t, level, r, genIndex)
    ensures SliceServed(t, level, caches, r, v, sl, given, view)
  {
    var len := CacheLength(caches[v].outputs);
    r := caches;
    if len < sl.stop {
      var newSl := Slice(len, sl.stop);
      var input;
      input, r := CreateInputDictIn(t, level, caches, genIndex, v, newSl, given);
      ExtendServed(t, level, caches, r, genIndex, v, sl, given);
      r := r[v := Appended(r[v], DelayedOutput(t, v, newSl, given))];
    }
    view := ReadView(r[v], sl);
  }

  /** The second half of `get_slice` on a cache shorter than `sl.stop`:
      once `_create_input_dict` has brought the parents there, appending the
      new output of `v` serves the slice. */
  lemma ExtendServed(t: Layout, level: seq<nat>, caches: seq<CacheState>, r1: seq<CacheState>,
                     genIndex: seq<int>, v: nat, sl: Slice, given: set<string>)
    requires Fits(t, level, caches, genIndex) && v < |caches| && Total(caches[v].outputs) < sl.stop
    requires Fits(t, level, r1, genIndex) && Grown(caches, r1)
    requires forall u :: 0 <= u < |caches| && Total(caches[u].outputs) >= sl.stop ==> r1[u] == caches[u]
    requires forall u :: 0 <= u < |caches| && u !in Graph.Anc(t.parents, level, v) ==> r1[u] == caches[u]
    requires Reached(t.parents[v], r1, sl.stop)
    ensures r1[v] == caches[v] && Sound(r1[v])
    ensures var r := r1[v := Appended(r1[v], DelayedOutput(t, v, Slice(Total(caches[v].outputs), sl.stop), given))];
      Fits(t, level, r, genIndex) && SliceServed(t, level, caches, r, v, sl, given, ViewAt(r[v], sl))
  {
    NotOwnAncestor(t.parents, level, v);
    var o := DelayedOutput(t, v, Slice(Total(caches[v].outputs), sl.stop), given);
    AppendOk(r1[v], genIndex[v], t.versions[v], o);
    AllOkSet(r1, genIndex, t.versions, v, Appended(r1[v], o));
    var r := r1[v := Appended(r1[v], o)];
    ExtendFrame(caches, r1, r, v, Graph.Anc(t.parents, level, v), o, sl.stop);
    ReachedGrown(t.parents[v], r1, r, sl.stop);
  }

  /** The state of `_create_input_dict` of node `v` after its first `i`
      parents: the caches went from `caches` to `r`, changing only nodes of
      `done` (the ancestors reached through those parents) and no cache that
      already reached `sl.stop`; each of those parents now reaches
      `sl.stop`, and its data is its slice as it stands. */
  ghost predicate InputLoop(t: Layout, level: seq<nat>, caches: seq<CacheState>, r: seq<CacheState>,
                            genIndex: seq<int>, v: nat, i: nat, done: set<nat>, data: seq<View>, sl: Slice)
  {
    && Fits(t, level, r, genIndex) && Grown(caches, r) && v < |r| && i <= |t.parents[v]| && |data| == i
    && (forall u :: 0 <= u < |caches| && Total(caches[u].outputs) >= sl.stop ==> r[u] == caches[u])
    && done == Graph.AncUpTo(t.parents, level, v, i)
    && (forall u :: 0 <= u < |caches| && u !in done ==> r[u] == caches[u])
    && (forall j :: 0 <= j < i ==>
          t.parents[v][j] < |r| && Total(r[t.parents[v][j]].outputs) >= sl.stop && data[j] == ViewAt(r[t.parents[v][j]], sl))
  }

  lemma InputLoopInit(t: Layout, level: seq<nat>, caches: seq<CacheState>, genIndex: seq<int>, v: nat, sl: Slice)
    requires Fits(t, level, caches, genIndex) && v < |caches|
    ensures InputLoop(t, level, caches, caches, genIndex, v, 0, {}, [], sl)
  {
  }

  /** `get_slice` on parent `i` of `v` keeps `InputLoop` going. */
  lemma InputLoopNext(t: Layout, level: seq<nat>, caches: seq<CacheState>, r: seq<CacheState>, r': seq<CacheState>,
                      genIndex: seq<int>, v: nat, i: nat, done: set<nat>, data: seq<View>, d: View,
                      sl: Slice) returns (done': set<nat>)
    requires InputLoop(t, level, caches, r, genIndex, v, i, done, data, sl) && i < |t.parents[v]|
    requires t.parents[v][i] < |r| && Fits(t, level, r', genIndex) && Grown(r, r')
    requires forall u :: 0 <= u < |r| && Total(r[u].outputs) >= sl.stop ==> r'[u] == r[u]
    requires forall u :: 0 <= u < |r| && u != t.parents[v][i] && u !in Graph.Anc(t.parents, level, t.parents[v][i]) ==> r'[u] == r[u]
    requires Total(r'[t.parents[v][i]].outputs) >= sl.stop && d == ViewAt(r'[t.parents[v][i]], sl)
    ensures done' == done + {t.parents[v][i]} + Graph.Anc(t.parents, level, t.parents[v][i])
    ensures InputLoop(t, level, caches, r', genIndex, v, i + 1, done', data + [d], sl)
  {
    var ps, p := t.parents[v], t.parents[v][i];
    var ap := Graph.Anc(t.parents, level, p);
    ParentFrame(caches, r, r', done, p, ap, sl.stop);
    done' := AncNext(t.parents, level, v, i, done, ap);
    assert forall j :: 0 <= j < |ps| ==> ps[j] in t.parents[v];
    DataStep(ps, i, r, r', genIndex, t.versions, data, d, sl);
  }

  lemma InputLoopDone(t: Layout, level: seq<nat>, caches: seq<CacheState>, r: seq<CacheState>,
                      genIndex: seq<int>, v: nat, done: set<nat>, data: seq<View>, sl: Slice)
    requires v < |t.parents| && InputLoop(t, level, caches, r, genIndex, v, |t.parents[v]|, done, data, sl)
    ensures Fits(t, level, r, genIndex) && Grown(caches, r)
    ensures forall u :: 0 <= u < |caches| && Total(caches[u].outputs) >= sl.stop ==> r[u] == caches[u]
    ensures forall u :: 0 <= u < |caches| && u !in Graph.Anc(t.parents, level, v) ==> r[u] == caches[u]
    ensures Reached(t.parents[v], r, sl.stop)
    ensures forall j :: 0 <= j < |t.parents[v]| ==> t.parents[v][j] < |r| && data[j] == ViewAt(r[t.parents[v][j]], sl)
  {
    ReachedAll(t.parents[v], r, sl.stop);
    AncDone(t.parents, level, v, |t.parents[v]|, done);
  }

  /** `_create_input_dict(sl, with_values)` of node `v`: `get_slice` on every
      parent in order. Each parent's data is its slice as it stands at the
      end, since a later request for the same range extends nothing. */
  method CreateInputDictIn(t: Layout, ghost level: seq<nat>, caches: seq<CacheState>, ghost genIndex: seq<int>,
                           v: nat, sl: Slice, given: set<string>) returns (input: InputDict, r: seq<CacheState>)
    requires Fits(t, level, caches, genIndex) && v < |caches|
    decreases level[v], 1
    ensures Fits(t, level, r, genIndex) && Grown(caches, r)
    ensures forall u :: 0 <= u < |caches| && Total(caches[u].outputs) >= sl.stop ==> r[u] == caches[u]
    ensures forall u :: 0 <= u < |caches| && u !in Graph.Anc(t.parents, level, v) ==> r[u] == caches[u]
    ensures Reached(t.parents[v], r, sl.stop)
    ensures input.n == sl.stop - sl.start && input.index == sl.start && |input.data| == |t.parents[v]|
    ensures forall j :: 0 <= j < |t.parents[v]| ==> t.parents[v][j] < |r| && input.data[j] == ViewAt(r[t.parents[v][j]], sl)
  {
    var data: seq<View> := [];
    r := caches;
    ghost var done: set<nat> := {};
    InputLoopInit(t, level, caches, genIndex, v, sl);
    var i := 0;
    while i < |t.parents[v]|
      invariant InputLoop(t, level, caches, r, genIndex, v, i, done, data, sl)
      decreases |t.parents[v]| - i
    {
      r, data, done := ParentRequest(t, level, caches, r, genIndex, v, i, done, data, sl, given);
      i := i + 1;
    }
    InputLoopDone(t, level, caches, r, genIndex, v, done, data, sl);
    input := InputDict(data, sl.stop - sl.start, sl.start);
  }

  /** One step of `_create_input_dict`: `get_slice` on parent `i` of `v`. */
  method ParentRequest(t: Layout, ghost level: seq<nat>, ghost caches: seq<CacheState>, r: seq<CacheState>,
                       ghost genIndex: seq<int>, v: nat, i: nat, ghost done: set<nat>, data: seq<View>,
                       sl: Slice, given: set<string>)
    returns (r': seq<CacheState>, data': seq<View>, ghost done': set<nat>)
    requires InputLoop(t, level, caches, r, genIndex, v, i, done, data, sl) && i < |t.parents[v]|
    decreases level[v], 0
    ensures InputLoop(t, level, caches, r', genIndex, v, i + 1, done', data', sl)
  {
    var ps := t.parents[v];
    assert forall j :: 0 <= j < |ps| ==> ps[j] in t.parents[v];
    var p := ps[i];
    var d;
    r', d := GetSliceIn(t, level, r, genIndex, p, sl, given);
    done' := InputLoopNext(t, level, caches, r, r', genIndex, v, i, done, data, d, sl);
    data' := data + [d];
  }

  /** `batch_size or n`: the batch length of `generate`; 0 stands for a
      missing (or zero) `batch_size`. */
  function EffectiveBatch(n: int, batchSize: nat): (r: int)
    ensures n > 0 ==> r > 0
    ensures r > 0 || (batchSize == 0 && r == n)
  {
    if batchSize == 0 then n else batchSize
  }

  /** The length of the output list after one turn of the `generate` loop
      as written, from length `len` towards `b` with the batch `batch`
      (`batch_size or n`, which keeps a negative `batch_size`): the turn asks
      `get_slice` for `[len, len + min(b - len, batch))`, which appends only
      when its stop lies beyond the current length. */
  function GenerateTurnAsWritten(len: int, b: int, batch: int): int {
    var stop := len + Min(b - len, batch);
    if len < stop then stop else len
  }

  /** The length after `k` turns of the loop as written, which turns while
      the length is below `b`. */
  function GenerateTurnsAsWritten(len: int, b: int, batch: int, k: nat): int
    decreases k
  {
    if k == 0 || len >= b then len
    else GenerateTurnsAsWritten(GenerateTurnAsWritten(len, b, batch), b, batch, k - 1)
  }

  /** With a negative batch no turn adds anything: however many turns run,
      the length stays below `b` and the loop never ends. */
  lemma {:induction false} NegativeBatchNeverEnds(len: int, b: int, batch: int, k: nat)
    requires batch < 0 && len < b
    ensures GenerateTurnsAsWritten(len, b, batch, k) == len < b
    decreases k
  {
    if k > 0 {
      assert GenerateTurnAsWritten(len, b, batch) == len;
      NegativeBatchNeverEnds(len, b, batch, k - 1);
    }
  }

  /** With the batch of a non-negative `batch_size` every turn of the loop
      from `len` in `[a, a + n)` grows the list and stays within `a + n`, so
      the loop ends after at most `n` turns. */
  lemma BatchTurnProgress(len: int, a: int, n: int, batchSize: nat)
    requires a <= len < a + n
    ensures len < GenerateTurnAsWritten(len, a + n, EffectiveBatch(n, batchSize)) <= a + n
  {
  }

  /** The loop with such a batch reaches `a + n` within `n` turns. */
  lemma {:induction false} BatchTurnsEnd(len: int, a: int, n: int, batchSize: nat, k: nat)
    requires a <= len <= a + n && k >= a + n - len
    ensures GenerateTurnsAsWritten(len, a + n, EffectiveBatch(n, batchSize), k) == a + n
    decreases k
  {
    if k > 0 && len < a + n {
      BatchTurnProgress(len, a, n, batchSize);
      BatchTurnsEnd(GenerateTurnAsWritten(len, a + n, EffectiveBatch(n, batchSize)), a, n, batchSize, k - 1);
    }
  }

  /** Every output of `outs` from position `from` on covers at most `batch`
      indices, carries the id `id`, and takes the given values exactly when
      `given` holds. */
  ghost predicate Batches(outs: seq<Delayed>, from: nat, batch: int, id: NodeKey, given: bool) {
    forall j :: from <= j < |outs| ==> SLen(outs[j].key.sl) <= batch && outs[j].key.id == id && outs[j].given == given
  }

  lemma BatchesStep(outs: seq<Delayed>, from: nat, batch: int, id: NodeKey, given: bool, o: Delayed)
    requires Batches(outs, from, batch, id, given) && from <= |outs|
    requires SLen(o.key.sl) <= batch && o.key.id == id && o.given == given
    ensures Batches(outs + [o], from, batch, id, given)
  {
    assert forall j :: 0 <= j < |outs| ==> (outs + [o])[j] == outs[j];
  }

  /** Moving the generate index of `v` up to a point its cache reaches keeps
      every cache ok. */
  lemma AllOkIndex(caches: seq<CacheState>, genIndex: seq<int>, versions: seq<nat>, v: nat, b: int)
    requires AllOk(caches, genIndex, versions) && v < |caches| && b <= Total(caches[v].outputs)
    ensures AllOk(caches, genIndex[v := b], versions)
  {
    assert forall u :: 0 <= u < |caches| && u != v ==> genIndex[v := b][u] == genIndex[u];
  }

  /** One turn of the `generate` loop on node `v`: `get_slice` of the next
      batch `[len, len + min(b - len, batch))`. The length grows as
      `GenerateTurnAsWritten` says, nodes that are neither `v` nor one of
      its ancestors are left alone, and the new output of `v` covers at most
      one batch. */
  method GenerateTurn(t: Layout, ghost level: seq<nat>, caches: seq<CacheState>, r: seq<CacheState>,
                      ghost genIndex: seq<int>, v: nat, len: int, b: int, batch: int, given: set<string>)
      returns (r': seq<CacheState>, len': int)
    requires Fits(t, level, r, genIndex) && Grown(caches, r) && v < |caches|
    requires len == Total(r[v].outputs) && len < b && batch > 0
    requires Batches(r[v].outputs, |caches[v].outputs|, batch, IdOf(t, v), t.names[v] in given)
    ensures Fits(t, level, r', genIndex) && Grown(caches, r')
    ensures len' == Total(r'[v].outputs) == GenerateTurnAsWritten(len, b, batch)
    ensures forall u :: 0 <= u < |caches| && u != v && u !in Graph.Anc(t.parents, level, v) ==> r'[u] == r[u]
    ensures Batches(r'[v].outputs, |caches[v].outputs|, batch, IdOf(t, v), t.names[v] in given)
  {
    var nb := Min(b - len, batch);
    var batchView;
    r', batchView := GetSliceIn(t, level, r, genIndex, v, Slice(len, len + nb), given);
    BatchesStep(r[v].outputs, |caches[v].outputs|, batch, IdOf(t, v), t.names[v] in given,
                DelayedOutput(t, v, Slice(len, len + nb), given));
    GrownTrans(caches, r, r');
    len' := CacheLength(r'[v].outputs);
  }

  /** The loop of `generate`: turn until the output list of `v` reaches
      `b`. It ends at exactly `b`, or where the list already was when that
      is further; a list already there is left alone, and so is every cache
      when that holds. */
  method GenerateLoop(t: Layout, ghost level: seq<nat>, caches: seq<CacheState>, ghost genIndex: seq<int>,
                      v: nat, b: int, batch: int, given: set<string>)
      returns (r: seq<CacheState>)
    requires Fits(t, level, caches, genIndex) && v < |caches|
    requires batch > 0 || b <= Total(caches[v].outputs)
    ensures Fits(t, level, r, genIndex) && Grown(caches, r)
    ensures Total(r[v].outputs) == Max(Total(caches[v].outputs), b)
    ensures Total(caches[v].outputs) >= b ==> r == caches
    ensures forall u :: 0 <= u < |caches| && u != v && u !in Graph.Anc(t.parents, level, v) ==> r[u] == caches[u]
    ensures Batches(r[v].outputs, |caches[v].outputs|, batch, IdOf(t, v), t.names[v] in given)
  {
    r := caches;
    var len := CacheLength(r[v].outputs);
    while len < b
      invariant Fits(t, level, r, genIndex) && Grown(caches, r)
      invariant len == Total(r[v].outputs) && Total(caches[v].outputs) <= len <= Max(Total(caches[v].outputs), b)
      invariant Total(caches[v].outputs) >= b ==> r == caches
      invariant forall u :: 0 <= u < |caches| && u != v && u !in Graph.Anc(t.parents, level, v) ==> r[u] == caches[u]
      invariant Batches(r[v].outputs, |caches[v].outputs|, batch, IdOf(t, v), t.names[v] in given)
      decreases b - len
    {
      r, len := GenerateTurn(t, level, caches, r, genIndex, v, len, b, batch, given);
    }
  }

  /** `generate(n, batch_size, with_values)` on node `v`: fill the cache up
      to `b`, the generate index plus `n`, with `get_slice` requests of at
      most one batch each, then move the generate index to `b` and read
      `[a, b)`. A cache already reaching `b` is left alone, and so is every
      cache when that holds; each new output of `v` covers at most one batch
      and takes the given values exactly when `v` is named in them. */
  method GenerateIn(t: Layout, ghost level: seq<nat>, caches: seq<CacheState>, genIndex: seq<int>,
                    v: nat, n: int, batchSize: nat, given: set<string>)
      returns (r: seq<CacheState>, genIndex': seq<int>, view: View)
    requires Fits(t, level, caches, genIndex) && v < |caches|
    ensures genIndex' == genIndex[v := genIndex[v] + n]
    ensures Fits(t, level, r, genIndex') && Grown(caches, r)
    ensures Total(r[v].outputs) == Max(Total(caches[v].outputs), genIndex[v] + n)
    ensures Total(caches[v].outputs) >= genIndex[v] + n ==> r == caches
    ensures forall u :: 0 <= u < |caches| && u != v && u !in Graph.Anc(t.parents, level, v) ==> r[u] == caches[u]
    ensures Batches(r[v].outputs, |caches[v].outputs|, EffectiveBatch(n, batchSize), IdOf(t, v), t.names[v] in given)
    ensures view == ViewAt(r[v], Slice(genIndex[v], genIndex[v] + n))
  {
    var a := genIndex[v];
    var b := a + n;
    r := GenerateLoop(t, level, caches, genIndex, v, b, EffectiveBatch(n, batchSize), given);
    AllOkIndex(r, genIndex, t.versions, v, b);
    genIndex' := genIndex[v := b];
    view := ReadView(r[v], Slice(a, b));
  }

  /** `acquire(n, starting, batch_size, with_values)` on node `v`: generate
      up to `starting + n` when the generate index is below it, then read
      `[starting, starting + n)` with a `get_slice` that takes no given
      values. Afterwards the generate index is at least `starting + n` and
      the cache reaches it; a cache that already reached it is left alone. */
  method AcquireIn(t: Layout, ghost level: seq<nat>, caches: seq<CacheState>, genIndex: seq<int>,
                   v: nat, n: int, starting: int, batchSize: nat, given: set<string>)
      returns (r: seq<CacheState>, genIndex': seq<int>, view: View)
    requires Fits(t, level, caches, genIndex) && v < |caches|
    ensures genIndex' == genIndex[v := Max(genIndex[v], starting + n)]
    ensures Fits(t, level, r, genIndex') && Grown(caches, r)
    ensures Total(r[v].outputs) >= starting + n
    ensures Total(caches[v].outputs) >= starting + n ==> r == caches
    ensures forall u :: 0 <= u < |caches| && u != v && u !in Graph.Anc(t.parents, level, v) ==> r[u] == caches[u]
    ensures view == ViewAt(r[v], Slice(starting, starting + n))
  {
    var sl := Slice(starting, starting + n);
    r, genIndex' := caches, genIndex;
    if genIndex[v] < sl.stop {
      var generated;
      r, genIndex', generated := GenerateIn(t, level, caches, genIndex, v, sl.stop - genIndex[v], batchSize, given);
    } else {
      assert CacheOk(caches[v], genIndex[v], t.versions[v]);
      assert genIndex[v := genIndex[v]] == genIndex;
    }
    r, view := GetSliceIn(t, level, r, genIndex', v, sl, {});
  }

  /** How many times `reset(propagate)` on `v` resets `u`: once per path from
      `v` down to `u` when propagating, since every child resets its own
      children again; else only `v` itself, once. */
  ghost function ResetCount(ch: seq<seq<nat>>, level: seq<nat>, bound: nat, v: nat, propagate: bool, u: nat): nat
    requires Graph.Ranked(ch, level, bound) && v < |ch|
  {
    if propagate then Graph.Paths(ch, level, bound, v, u) else if u == v then 1 else 0
  }

  /** The counters `r0` became `r` by one `reset(propagate=True)` on `c`:
      each node was reset once per path from `c` to it. */
  ghost predicate ResetOnce(r0: seq<nat>, r: seq<nat>, ch: seq<seq<nat>>, level: seq<nat>, bound: nat, c: nat) {
    && Graph.Ranked(ch, level, bound) && c < |ch| && |r0| == |ch| && |r| == |ch|
    && forall u :: 0 <= u < |r| ==> r[u] == r0[u] + ResetCount(ch, level, bound, c, true, u)
  }

  /** `reset(propagate)` reaches exactly `v` and, when propagating, the
      descendants of `v`. */
  lemma ResetReach(ch: seq<seq<nat>>, level: seq<nat>, bound: nat, v: nat, propagate: bool, u: nat)
    requires Graph.Ranked(ch, level, bound) && v < |ch|
    ensures ResetCount(ch, level, bound, v, propagate, u) > 0 <==> u == v || (propagate && u in Graph.Desc(ch, level, bound, v))
  {
    Graph.PathsPositive(ch, level, bound, v, u);
  }

  /** No path leads from `v` through one of its children back to `v`. */
  lemma NoSelfPath(ch: seq<seq<nat>>, level: seq<nat>, bound: nat, v: nat)
    requires Graph.Ranked(ch, level, bound) && v < |ch|
    ensures Graph.PathsUpTo(ch, level, bound, v, v, |ch[v]|) == 0
  {
    Graph.PathsUpToPositive(ch, level, bound, v, v, |ch[v]|);
    assert Graph.Desc(ch, level, bound, v) == Graph.DescUpTo(ch, level, bound, v, |ch[v]|);
    forall u | u in Graph.Desc(ch, level, bound, v) ensures u < |ch| && level[v] < level[u] {
      Graph.DescAbove(ch, level, bound, v, u);
    }
  }

  /** `reset(propagate)` on node `v`: with `propagate`, `reset()` on every
      child in turn first; then the generate index goes to 0, the version up
      by one, and the cache is cleared and bound to the new id. A node
      reached several times is reset several times and ends cleared under
      its last version; every other node keeps its state. */
  method ResetIn(ch: seq<seq<nat>>, ghost level: seq<nat>, ghost bound: nat, task: string, names: seq<string>,
                 caches: seq<CacheState>, genIndex: seq<int>, resets: seq<nat>, v: nat, propagate: bool)
      returns (caches': seq<CacheState>, genIndex': seq<int>, resets': seq<nat>)
    requires Graph.Ranked(ch, level, bound) && v < |ch|
    requires |names| == |ch| && |caches| == |ch| && |genIndex| == |ch| && |resets| == |ch|
    decreases bound - level[v]
    ensures |caches'| == |ch| && |genIndex'| == |ch| && |resets'| == |ch|
    ensures forall u :: 0 <= u < |ch| ==> resets'[u] == resets[u] + ResetCount(ch, level, bound, v, propagate, u)
    ensures forall u :: 0 <= u < |ch| && ResetCount(ch, level, bound, v, propagate, u) > 0 ==>
      genIndex'[u] == 0 && caches'[u] == Cleared(caches[u], NodeKey(task, names[u], resets'[u]))
    ensures forall u :: 0 <= u < |ch| && ResetCount(ch, level, bound, v, propagate, u) == 0 ==>
      genIndex'[u] == genIndex[u] && caches'[u] == caches[u]
  {
    caches', genIndex', resets' := caches, genIndex, resets;
    if propagate {
      var cs := ch[v];
      var i := 0;
      while i < |cs|
        invariant 0 <= i <= |cs|
        invariant |caches'| == |ch| && |genIndex'| == |ch| && |resets'| == |ch|
        invariant forall u :: 0 <= u < |ch| ==> resets'[u] == resets[u] + Graph.PathsUpTo(ch, level, bound, v, u, i)
        invariant forall u :: 0 <= u < |ch| && Graph.PathsUpTo(ch, level, bound, v, u, i) > 0 ==>
          genIndex'[u] == 0 && caches'[u] == Cleared(caches[u], NodeKey(task, names[u], resets'[u]))
        invariant forall u :: 0 <= u < |ch| && Graph.PathsUpTo(ch, level, bound, v, u, i) == 0 ==>
          genIndex'[u] == genIndex[u] && caches'[u] == caches[u]
      {
        var c := cs[i];
        assert c in ch[v];
        caches', genIndex', resets' := ResetIn(ch, level, bound, task, names, caches', genIndex', resets', c, true);
        i := i + 1;
      }
      NoSelfPath(ch, level, bound, v);
    }
    resets' := resets'[v := resets'[v] + 1];
    genIndex' := genIndex'[v := 0];
    caches' := caches'[v := Cleared(caches'[v], NodeKey(task, names[v], resets'[v]))];
  }

  /** What a node's state can have become after some `reset` calls: either
      it is as it was, or it was reset to a newer version under the name
      `name` of the inference task `task`, with nothing generated. */
  ghost predicate ResetOrKept(a: CacheState, ga: int, ra: nat, b: CacheState, gb: int, rb: nat, task: string, name: string) {
    || (b == a && gb == ga && rb == ra)
    || (rb > ra && gb == 0 && b == Cleared(a, NodeKey(task, name, rb)))
  }

  lemma ResetOrKeptTrans(a: CacheState, ga: int, ra: nat, b: CacheState, gb: int, rb: nat,
                         c: CacheState, gc: int, rc: nat, task: string, name: string)
    requires ResetOrKept(a, ga, ra, b, gb, rb, task, name) && ResetOrKept(b, gb, rb, c, gc, rc, task, name)
    ensures ResetOrKept(a, ga, ra, c, gc, rc, task, name)
  {
  }

  /** A reset keeps a node's cache ok: it is empty and bound to the new version. */
  lemma ResetOrKeptOk(a: CacheState, ga: int, ra: nat, b: CacheState, gb: int, rb: nat, task: string, name: string)
    requires CacheOk(a, ga, ra) && ResetOrKept(a, ga, ra, b, gb, rb, task, name)
    ensures CacheOk(b, gb, rb)
  {
  }

  /** The effect of `reset` node by node, as `ResetIn` states it. */
  lemma ResetInOk(ch: seq<seq<nat>>, level: seq<nat>, bound: nat, task: string, names: seq<string>,
                  caches: seq<CacheState>, genIndex: seq<int>, resets: seq<nat>, v: nat, propagate: bool,
                  caches': seq<CacheState>, genIndex': seq<int>, resets': seq<nat>)
    requires Graph.Ranked(ch, level, bound) && v < |ch| && |names| == |ch|
    requires AllOk(caches, genIndex, resets) && |caches| == |ch|
    requires |caches'| == |ch| && |genIndex'| == |ch| && |resets'| == |ch|
    requires forall u :: 0 <= u < |ch| ==> resets'[u] == resets[u] + ResetCount(ch, level, bound, v, propagate, u)
    requires forall u :: 0 <= u < |ch| && ResetCount(ch, level, bound, v, propagate, u) > 0 ==>
      genIndex'[u] == 0 && caches'[u] == Cleared(caches[u], NodeKey(task, names[u], resets'[u]))
    requires forall u :: 0 <= u < |ch| && ResetCount(ch, level, bound, v, propagate, u) == 0 ==>
      genIndex'[u] == genIndex[u] && caches'[u] == caches[u]
    ensures AllOk(caches', genIndex', resets')
    ensures AllResetOrKept(caches, genIndex, resets, caches', genIndex', resets', task, names)
  {
    forall u | 0 <= u < |ch|
      ensures ResetOrKept(caches[u], genIndex[u], resets[u], caches'[u], genIndex'[u], resets'[u], task, names[u])
      ensures CacheOk(caches'[u], genIndex'[u], resets'[u])
    {
      ResetOrKeptOk(caches[u], genIndex[u], resets[u], caches'[u], genIndex'[u], resets'[u], task, names[u]);
    }
  }

  /** `ResetOrKept` at every node. */
  ghost predicate AllResetOrKept(a: seq<CacheState>, ga: seq<int>, ra: seq<nat>,
                                 b: seq<CacheState>, gb: seq<int>, rb: seq<nat>, task: string, names: seq<string>)
  {
    && |a| == |ga| == |ra| == |b| == |gb| == |rb| == |names|
    && forall u :: 0 <= u < |a| ==> ResetOrKept(a[u], ga[u], ra[u], b[u], gb[u], rb[u], task, names[u])
  }

  lemma AllResetOrKeptTrans(a: seq<CacheState>, ga: seq<int>, ra: seq<nat>, b: seq<CacheState>, gb: seq<int>, rb: seq<nat>,
                            c: seq<CacheState>, gc: seq<int>, rc: seq<nat>, task: string, names: seq<string>)
    requires AllResetOrKept(a, ga, ra, b, gb, rb, task, names) && AllResetOrKept(b, gb, rb, c, gc, rc, task, names)
    ensures AllResetOrKept(a, ga, ra, c, gc, rc, task, names)
    ensures forall u :: 0 <= u < |a| ==> ra[u] <= rb[u] <= rc[u]
  {
    forall u | 0 <= u < |a| ensures ResetOrKept(a[u], ga[u], ra[u], c[u], gc[u], rc[u], task, names[u]) {
      ResetOrKeptTrans(a[u], ga[u], ra[u], b[u], gb[u], rb[u], c[u], gc[u], rc[u], task, names[u]);
    }
  }

  /** How many times the propagating resets of the moved children `ms`,
      one after the other, reset `u`: once per path from each of them. */
  ghost function MovedResets(ch: seq<seq<nat>>, level: seq<nat>, bound: nat, ms: seq<nat>, u: nat): nat
    requires Graph.Ranked(ch, level, bound) && forall c :: c in ms ==> c < |ch|
    decreases |ms|
  {
    if ms == [] then 0
    else
      var n := |ms| - 1;
      assert ms[n] in ms && forall c :: c in ms[..n] ==> c in ms;
      MovedResets(ch, level, bound, ms[..n], u) + Graph.Paths(ch, level, bound, ms[n], u)
  }

  /** The resets of the moved children reach exactly the moved children
      and the nodes below them. */
  lemma {:induction false} MovedResetsPositive(ch: seq<seq<nat>>, level: seq<nat>, bound: nat, ms: seq<nat>, u: nat)
    requires Graph.Ranked(ch, level, bound) && forall c :: c in ms ==> c < |ch|
    ensures MovedResets(ch, level, bound, ms, u) > 0
      <==> exists c :: c in ms && (u == c || u in Graph.Desc(ch, level, bound, c))
    decreases |ms|
  {
    if ms != [] {
      var n := |ms| - 1;
      assert ms == ms[..n] + [ms[n]];
      assert ms[n] in ms && forall c :: c in ms[..n] ==> c in ms;
      MovedResetsPositive(ch, level, bound, ms[..n], u);
      Graph.PathsPositive(ch, level, bound, ms[n], u);
    }
  }

  /** While only the child lists of `v` and `x` change, the resets of
      children apart from both reach the same nodes the same number of
      times. */
  lemma {:induction false} MovedResetsSame(ch: seq<seq<nat>>, l1: seq<nat>, b1: nat,
                                           ch': seq<seq<nat>>, l2: seq<nat>, b2: nat, v: nat, x: nat, ms: seq<nat>)
    requires Graph.Ranked(ch, l1, b1) && Graph.Ranked(ch', l2, b2) && |ch'| == |ch|
    requires forall w :: 0 <= w < |ch| && w != v && w != x ==> ch'[w] == ch[w]
    requires forall c :: c in ms ==> c < |ch| && Graph.Apart(ch, l1, b1, v, x, c)
    ensures forall c :: c in ms ==> Graph.Apart(ch', l2, b2, v, x, c)
    ensures forall u :: MovedResets(ch', l2, b2, ms, u) == MovedResets(ch, l1, b1, ms, u)
    decreases |ms|
  {
    forall c | c in ms ensures Graph.Apart(ch', l2, b2, v, x, c) {
      Graph.ApartKept(ch, l1, b1, ch', l2, b2, v, x, c);
    }
    if ms != [] {
      var n := |ms| - 1;
      assert ms[n] in ms && forall c :: c in ms[..n] ==> c in ms;
      MovedResetsSame(ch, l1, b1, ch', l2, b2, v, x, ms[..n]);
      Graph.ApartKept(ch, l1, b1, ch', l2, b2, v, x, ms[n]);
    }
  }

  /** After the resets of the moved children `ms`, from the counts `r0`:
      each lies apart from `v` and `x`, and every node was reset once per
      path from each of them. */
  ghost predicate ResetsSince(r0: seq<nat>, r: seq<nat>, ch: seq<seq<nat>>, level: seq<nat>, bound: nat,
                              v: nat, x: nat, ms: seq<nat>)
  {
    && Graph.Ranked(ch, level, bound) && |r| == |ch| && |r0| == |ch|
    && (forall c :: c in ms ==> Graph.Apart(ch, level, bound, v, x, c))
    && (forall u :: 0 <= u < |r| ==> r[u] == r0[u] + MovedResets(ch, level, bound, ms, u))
  }

  /** `ResetsSince` survives a change of the child lists of `v` and `x`. */
  lemma ResetsSinceMoved(r0: seq<nat>, r: seq<nat>, ch: seq<seq<nat>>, l1: seq<nat>, b1: nat,
                         ch': seq<seq<nat>>, l2: seq<nat>, b2: nat, v: nat, x: nat, ms: seq<nat>)
    requires ResetsSince(r0, r, ch, l1, b1, v, x, ms) && Graph.Ranked(ch', l2, b2) && |ch'| == |ch|
    requires forall w :: 0 <= w < |ch| && w != v && w != x ==> ch'[w] == ch[w]
    ensures ResetsSince(r0, r, ch', l2, b2, v, x, ms)
  {
    MovedResetsSame(ch, l1, b1, ch', l2, b2, v, x, ms);
  }

  /** The propagating reset of the next moved child `cs[i]` adds its paths
      to every count. */
  lemma ResetsSinceNext(r0: seq<nat>, r1: seq<nat>, r2: seq<nat>, ch: seq<seq<nat>>, level: seq<nat>, bound: nat,
                        v: nat, x: nat, cs: seq<nat>, i: nat)
    requires i < |cs| && ResetsSince(r0, r1, ch, level, bound, v, x, cs[..i])
    requires Graph.Apart(ch, level, bound, v, x, cs[i]) && |r2| == |r1|
    requires forall u :: 0 <= u < |r2| ==> r2[u] == r1[u] + ResetCount(ch, level, bound, cs[i], true, u)
    ensures ResetsSince(r0, r2, ch, level, bound, v, x, cs[..i + 1])
  {
    var ms := cs[..i + 1];
    assert ms[..i] == cs[..i] && ms[i] == cs[i];
    assert forall c :: c in ms ==> c in cs[..i] || c == cs[i];
  }

  /** The nodes whose count grew are exactly the moved children and the
      nodes below them. */
  lemma ResetsSinceReach(r0: seq<nat>, r: seq<nat>, ch: seq<seq<nat>>, level: seq<nat>, bound: nat,
                         v: nat, x: nat, ms: seq<nat>)
    requires ResetsSince(r0, r, ch, level, bound, v, x, ms)
    ensures forall u :: 0 <= u < |r| ==>
      (r[u] > r0[u] <==> exists c :: c in ms && (u == c || u in Graph.Desc(ch, level, bound, c)))
    ensures forall c :: c in ms ==> c < |r| && r[c] > r0[c]
    ensures ResetsByMove(r0, r, ch, level, bound, ms)
  {
    forall u | 0 <= u < |r|
      ensures r[u] > r0[u] <==> exists c :: c in ms && (u == c || u in Graph.Desc(ch, level, bound, c))
    {
      MovedResetsPositive(ch, level, bound, ms, u);
    }
  }

  /** The reset counters `r0` became `r` by moving the children `ms` one by
      one, each move followed by a reset with propagation: every counter grew
      by the number of paths from the moved children to its node, so exactly
      the moved children and their descendants were reset, each moved child
      at least once. */
  ghost predicate ResetsByMove(r0: seq<nat>, r: seq<nat>, ch: seq<seq<nat>>, level: seq<nat>, bound: nat,
                               ms: seq<nat>)
  {
    && Graph.Ranked(ch, level, bound) && |r| == |ch| && |r0| == |ch|
    && (forall c :: c in ms ==> c < |r| && r[c] > r0[c])
    && (forall u :: 0 <= u < |r| ==> r[u] == r0[u] + MovedResets(ch, level, bound, ms, u))
    && (forall u :: 0 <= u < |r| ==>
         (r[u] > r0[u] <==> exists c :: c in ms && (u == c || u in Graph.Desc(ch, level, bound, c))))
  }

  /** Moving no child resets nothing. */
  lemma NoneMoved(r: seq<nat>, ch: seq<seq<nat>>, level: seq<nat>, bound: nat)
    requires Graph.Ranked(ch, level, bound) && |r| == |ch|
    ensures ResetsByMove(r, r, ch, level, bound, [])
  {
    forall u | 0 <= u < |r|
      ensures MovedResets(ch, level, bound, [], u) == 0
    {
    }
  }

  /** An inference task: its graph of operations and, per node, the state
      an `Operation` object keeps. */
  class InferenceTask {
    /** The graph: the inference task name, the registry and the node lists. */
    const g: Graph.Graph
    /** Per node id: `_delayed_outputs`, `_generate_index`, `_num_resets`. */
    var caches: seq<CacheState>
    var genIndex: seq<int>
    var resets: seq<nat>

    ghost predicate Valid()
      reads this, g
    {
      && g.Valid() && |caches| == |g.name|
      && AllOk(caches, genIndex, resets)
    }

    /** What the slice engine reads of the inference task; `versions` are the reset
        counts (`Operation.version`). */
    function TaskLayout(): Layout
      reads this, g
    {
      Layout(g.graphName, g.name, g.parents, resets)
    }

    /** `Operation.id`: `make_key_id(task name, node name, version)`. */
    function Id(v: nat): (r: NodeKey)
      reads this, g
      requires Valid() && v < |caches|
      ensures r == IdOf(TaskLayout(), v)
      ensures r.version == resets[v] == caches[v].nodeId.version && r.node == g.name[v]
    {
      NodeKey(g.graphName, g.name[v], resets[v])
    }

    constructor (name: string)
      ensures Valid() && fresh(g) && g.graphName == name
      ensures g.name == [] && g.nodes == map[] && caches == [] && genIndex == [] && resets == []
    {
      g := new Graph.Graph(name);
      caches, genIndex, resets := [], [], [];
    }

    /** `Operation.__init__`: a new node named `name` with the parents `ps`,
        registered in the inference task, with an empty cache bound to its first id
        and the given (prepared) store, generate index 0 and no resets. */
    method AddOperation(name: string, ps: seq<nat>, store: Option<Store.Store>) returns (x: nat)
      requires Valid() && forall j :: 0 <= j < |ps| ==> ps[j] < |caches|
      modifies this, g
      ensures Valid() && x == old(|caches|)
      ensures name in g.nodes && g.nodes[name] == x && g.name[x] == name
      ensures g.parents == old(g.parents) + [Merge([], ps)]
      ensures g.children == Graph.LinkChildren(old(g.children) + [[]], ps, x)
      ensures g.nodes.Values == old(g.nodes).Values + {x}
      ensures name in old(g.nodes) ==>
        var n := Graph.FreshFrom(old(g.nodes).Keys, name);
        && g.name == (old(g.name) + [name])[old(g.nodes)[name] := n]
        && g.nodes == old(g.nodes)[n := old(g.nodes)[name]][name := x]
      ensures name !in old(g.nodes) ==> g.name == old(g.name) + [name] && g.nodes == old(g.nodes)[name := x]
      ensures caches == old(caches) + [CacheState([], [], NodeKey(g.graphName, name, 0), store)]
      ensures genIndex == old(genIndex) + [0] && resets == old(resets) + [0]
      ensures Id(x) == NodeKey(g.graphName, name, 0)
    {
      var st := CacheState([], [], NodeKey(g.graphName, name, 0), store);
      AllOkGrow(caches, genIndex, resets, st);
      x := g.NewNode(name, ps, true);
      caches, genIndex, resets := caches + [st], genIndex + [0], resets + [0];
    }

    /** `Operation.__getitem__`: read `sl` from the node's cache. */
    method Read(v: nat, sl: Slice) returns (view: View)
      requires Valid() && v < |caches|
      ensures view == ViewAt(caches[v], sl)
      ensures Covered(Pieces(view)) == SLen(Intersect(Slice(0, Total(caches[v].outputs)), sl))
    {
      view := ReadView(caches[v], sl);
    }

    /** `Operation.get_slice(sl, with_values)`; `given` names the nodes of
        `with_values`. */
    method GetSlice(v: nat, sl: Slice, given: set<string>) returns (view: View)
      requires Valid() && v < |caches|
      modifies this
      ensures Valid() && genIndex == old(genIndex) && resets == old(resets)
      ensures SliceServed(TaskLayout(), g.level, old(caches), caches, v, sl, given, view)
    {
      var r;
      r, view := GetSliceIn(TaskLayout(), g.level, caches, genIndex, v, sl, given);
      caches := r;
    }

    /** `Operation.generate(n, batch_size, with_values)`; `batchSize` 0
        stands for a missing `batch_size`. */
    method Generate(v: nat, n: int, batchSize: nat, given: set<string>) returns (view: View)
      requires Valid() && v < |caches|
      modifies this
      ensures Valid() && resets == old(resets) && Grown(old(caches), caches)
      ensures genIndex == old(genIndex)[v := old(genIndex[v]) + n]
      ensures Total(caches[v].outputs) == Max(Total(old(caches[v]).outputs), old(genIndex[v]) + n)
      ensures Total(old(caches[v]).outputs) >= old(genIndex[v]) + n ==> caches == old(caches)
      ensures forall u :: 0 <= u < |caches| && u != v && u !in g.AncSet(v) ==> caches[u] == old(caches[u])
      ensures Batches(caches[v].outputs, |old(caches[v]).outputs|, EffectiveBatch(n, batchSize), Id(v), g.name[v] in given)
      ensures view == ViewAt(caches[v], Slice(old(genIndex[v]), old(genIndex[v]) + n))
    {
      caches, genIndex, view := GenerateIn(TaskLayout(), g.level, caches, genIndex, v, n, batchSize, given);
    }

    /** `Operation.acquire(n, starting, batch_size, with_values)`: generate
        up to `starting + n` when the generate index is below it, then read
        `[starting, starting + n)` with `get_slice`. */
    method Acquire(v: nat, n: int, starting: int, batchSize: nat, given: set<string>) returns (view: View)
      requires Valid() && v < |caches|
      modifies this
      ensures Valid() && resets == old(resets) && Grown(old(caches), caches)
      ensures genIndex == old(genIndex)[v := Max(old(genIndex[v]), starting + n)]
      ensures Total(caches[v].outputs) >= starting + n
      ensures Total(old(caches[v]).outputs) >= starting + n ==> caches == old(caches)
      ensures forall u :: 0 <= u < |caches| && u != v && u !in g.AncSet(v) ==> caches[u] == old(caches[u])
      ensures view == ViewAt(caches[v], Slice(starting, starting + n))
    {
      var t := TaskLayout();
      ghost var c0 := caches;
      assert Graph.Anc(t.parents, g.level, v) == g.AncSet(v);
      var r, gi;
      r, gi, view := AcquireIn(t, g.level, caches, genIndex, v, n, starting, batchSize, given);
      caches, genIndex := r, gi;
      assert caches == r && old(caches) == c0;
    }

    /** `Operation.reset(propagate)`: reset every child first (each resets
        its own children), then forget the node's outputs, move to the next
        version and rebind the cache to the new id. A node below `v` is
        reset once per path from `v` to it. */
    method Reset(v: nat, propagate: bool)
      requires Valid() && v < |caches|
      modifies this
      ensures Valid()
      ensures forall u :: 0 <= u < |caches| ==> resets[u] == old(resets[u]) + ResetCount(g.children, g.level, g.bound, v, propagate, u)
      ensures forall u :: 0 <= u < |caches| ==>
        (resets[u] > old(resets[u]) <==> u == v || (propagate && u in g.DescSet(v)))
      ensures forall u :: 0 <= u < |caches| && resets[u] > old(resets[u]) ==>
        genIndex[u] == 0 && caches[u] == Cleared(old(caches[u]), NodeKey(g.graphName, g.name[u], resets[u]))
      ensures forall u :: 0 <= u < |caches| && resets[u] == old(resets[u]) ==>
        genIndex[u] == old(genIndex[u]) && caches[u] == old(caches[u])
      ensures AllResetOrKept(old(caches), old(genIndex), old(resets), caches, genIndex, resets, g.graphName, g.name)
    {
      ghost var c0, gi0, r0 := caches, genIndex, resets;
      caches, genIndex, resets := ResetIn(g.children, g.level, g.bound, g.graphName, g.name, caches, genIndex, resets, v, propagate);
      ResetInOk(g.children, g.level, g.bound, g.graphName, g.name, c0, gi0, r0, v, propagate, caches, genIndex, resets);
      forall u | 0 <= u < |caches|
        ensures ResetCount(g.children, g.level, g.bound, v, propagate, u) > 0 <==> u == v || (propagate && u in g.DescSet(v))
      {
        ResetReach(g.children, g.level, g.bound, v, propagate, u);
      }
    }

    /** Since the state `c0`, `gi0`, `r0`: every node was either kept or
        reset, the first `i` children `cs` of `v` have moved to `x` and lie
        apart from both, and each node was reset once per path from each of
        them. */
    ghost predicate ResetSince(c0: seq<CacheState>, gi0: seq<int>, r0: seq<nat>, v: nat, x: nat, cs: seq<nat>, i: nat)
      reads this, g
    {
      && i <= |cs| && g.Valid()
      && AllResetOrKept(c0, gi0, r0, caches, genIndex, resets, g.graphName, g.name)
      && ResetsSince(r0, resets, g.children, g.level, g.bound, v, x, cs[..i])
    }

    /** One child moved by `change_to` on an operation: move child `cs[i]`
        of `v` to `x` in the graph and, when that succeeds, reset it with
        propagation. When the move raises, nothing is reset. */
    method MoveChildAndReset(v: nat, x: nat, ghost opa: seq<seq<nat>>, ghost och: seq<seq<nat>>,
                             ghost c0: seq<CacheState>, ghost gi0: seq<int>, ghost r0: seq<nat>, cs: seq<nat>, i: nat)
        returns (err: Option<Graph.GraphError>)
      requires Valid() && v < |caches| && x < |caches| && x != v && i < |cs|
      requires Graph.Transferred(opa, och, g.parents, g.children, v, x, cs, i)
      requires ResetSince(c0, gi0, r0, v, x, cs, i)
      modifies this, g
      ensures Valid() && g.nodes == old(g.nodes) && g.name == old(g.name)
      ensures err.Some? ==> err == Some(Graph.CycleError)
      ensures err.Some? ==> caches == old(caches) && genIndex == old(genIndex) && resets == old(resets)
      ensures err.Some? ==> Graph.TransferFailed(opa, och, g.parents, g.children, v, x, cs, i) && ResetSince(c0, gi0, r0, v, x, cs, i)
      ensures err.None? ==> ResetOnce(old(resets), resets, g.children, g.level, g.bound, cs[i])
      ensures err.None? ==> Graph.Transferred(opa, och, g.parents, g.children, v, x, cs, i + 1) && ResetSince(c0, gi0, r0, v, x, cs, i + 1)
    {
      Graph.TransferredAt(opa, och, g.parents, g.children, v, x, cs, i);
      ghost var pa0, ch0, l0, b0 := g.parents, g.children, g.level, g.bound;
      err := g.MoveChild(v, x, opa, och, cs, i);
      Graph.MoveFrame(opa, och, pa0, ch0, g.parents, g.children, v, x, cs, i, err.None?);
      ResetsSinceMoved(r0, resets, ch0, l0, b0, g.children, g.level, g.bound, v, x, cs[..i]);
      if err.None? {
        ghost var c1: seq<CacheState>, gi1: seq<int>, r1: seq<nat> := caches, genIndex, resets;
        Reset(cs[i], true);
        AllResetOrKeptTrans(c0, gi0, r0, c1, gi1, r1, caches, genIndex, resets, g.graphName, g.name);
        ResetsSinceNext(r0, r1, resets, g.children, g.level, g.bound, v, x, cs, i);
      }
    }

    /** The child transfer of `change_to` on an operation: each child of
        `v` in turn moves to `x` and is then reset with propagation; the
        first child whose move would close a cycle raises before its reset.
        `moved` lists the children that moved. */
    method MoveChildrenAndReset(v: nat, x: nat) returns (moved: seq<nat>, err: Option<Graph.GraphError>)
      requires Valid() && v < |caches| && x < |caches| && x != v
      modifies this, g
      ensures Valid() && g.nodes == old(g.nodes) && g.name == old(g.name)
      ensures |moved| <= |old(g.children[v])| && moved == old(g.children[v])[..|moved|]
      ensures Graph.ChildrenMoved(old(g.parents), old(g.children), g.parents, g.children, v, x, moved, err)
      ensures ResetSince(old(caches), old(genIndex), old(resets), v, x, old(g.children[v]), |moved|)
    {
      ghost var opa, och := g.parents, g.children;
      ghost var c0: seq<CacheState>, gi0: seq<int>, r0: seq<nat> := caches, genIndex, resets;
      var cs := g.children[v];
      err := None;
      Graph.TransferredStart(opa, och, v, x);
      var i := 0;
      while i < |cs|
        invariant 0 <= i <= |cs|
        invariant Valid() && g.nodes == old(g.nodes) && g.name == old(g.name)
        invariant Graph.Transferred(opa, och, g.parents, g.children, v, x, cs, i)
        invariant ResetSince(c0, gi0, r0, v, x, cs, i)
        invariant err.None?
      {
        err := MoveChildAndReset(v, x, opa, och, c0, gi0, r0, cs, i);
        if err.Some? {
          moved := cs[..i];
          assert |moved| == i && moved <= cs;
          return;
        }
        i := i + 1;
      }
      moved := cs;
      assert |moved| == i && cs[..i] == cs;
    }

    /** The children half of `change_to`: every child of `v` moves to `x`
        and is reset, until the first move that would close a cycle. Each
        node is reset once per path from each moved child, so the nodes
        reset are exactly the moved children and the nodes below them. */
    method ChildrenToAndReset(v: nat, x: nat) returns (moved: seq<nat>, err: Option<Graph.GraphError>)
      requires Valid() && v < |caches| && x < |caches| && x != v
      modifies this, g
      ensures Valid() && g.nodes == old(g.nodes) && g.name == old(g.name)
      ensures Graph.ChildrenMoved(old(g.parents), old(g.children), g.parents, g.children, v, x, moved, err)
      ensures err.None? ==>
        && moved == old(g.children[v]) && g.children[v] == []
        && forall c :: c in moved ==> x in g.parents[c] && v !in g.parents[c] && c in g.children[x]
      ensures err.None? ==> g.parents[v] == old(g.parents[v]) && forall p :: p in old(g.parents[x]) ==> p in g.parents[x]
      ensures ResetsByMove(old(resets), resets, g.children, g.level, g.bound, moved)
      ensures AllResetOrKept(old(caches), old(genIndex), old(resets), caches, genIndex, resets, g.graphName, g.name)
    {
      ghost var pa0, ch0 := g.parents, g.children;
      ghost var r0 := resets;
      assert v !in ch0[v];
      moved, err := MoveChildrenAndReset(v, x);
      assert ResetsSince(r0, resets, g.children, g.level, g.bound, v, x, moved);
      ResetsSinceReach(r0, resets, g.children, g.level, g.bound, v, x, moved);
      if err.None? {
        Graph.TransferredDone(pa0, ch0, g.parents, g.children, v, x, moved);
      }
    }

    /** `Node.change_to(node, transfer_parents, transfer_children)` on an
        operation: `x` takes over the edges of `v` as in the graph, and every
        moved child is reset with propagation right after it moved. A child
        whose move would close a cycle raises before its reset. */
    method ChangeTo(v: nat, x: nat, transferParents: bool, transferChildren: bool)
        returns (moved: seq<nat>, err: Option<Graph.GraphError>)
      requires Valid() && v < |caches| && x < |caches| && x != v
      modifies this, g
      ensures Valid() && g.nodes == old(g.nodes) && g.name == old(g.name)
      ensures err.Some? ==> err == Some(Graph.CycleError)
      ensures !transferParents && !transferChildren ==>
        err.None? && moved == [] && g.parents == old(g.parents) && g.children == old(g.children)
      ensures err.None? && transferParents ==>
        g.parents[v] == [] && forall p :: p in old(g.parents[v]) ==> p in g.parents[x]
      ensures err.None? && transferChildren ==>
        && moved == old(g.children[v]) && g.children[v] == []
        && forall c :: c in moved ==> x in g.parents[c] && v !in g.parents[c] && c in g.children[x]
      ensures Graph.ChangedTo(old(g.parents), old(g.children), old(g.level), old(g.bound), g.parents, g.children,
                              v, x, transferParents, transferChildren, moved, err)
      ensures moved <= old(g.children[v])
      ensures ResetsByMove(old(resets), resets, g.children, g.level, g.bound, moved)
      ensures !transferChildren ==> caches == old(caches) && genIndex == old(genIndex) && resets == old(resets)
      ensures AllResetOrKept(old(caches), old(genIndex), old(resets), caches, genIndex, resets, g.graphName, g.name)
    {
      moved := [];
      err := None;
      ghost var ps := g.parents[v];
      ghost var r0 := resets;
      if transferParents {
        err := g.MoveParents(v, x);
        if err.None? {
          assert ps[..|ps|] == ps;
        }
      }
      if err.None? && transferChildren {
        moved, err := ChildrenToAndReset(v, x);
      } else {
        NoneMoved(resets, g.children, g.level, g.bound);
      }
    }
  }
}

/** The shape discipline of the engine, at the level of numpy shapes:
    `normalize_data` brings user data to a leading dimension of `n`, the leaf
    adapters `simulator_operation`, `summary_operation` and
    `discrepancy_operation` reject outputs of the wrong form, and
    `vectorize_simulator` stacks per-sample outputs into one array. Element
    values are not modelled, only shapes. */
module Shapes {
  import opened Base

  /** A numpy shape. */
  type Shape = seq<nat>

  /** User data as `normalize_data` tells it apart: a string, a plain value,
      or a list, tuple or array of the given shape (a list becomes the array
      `np.atleast_1d` makes of it; a 0-d array has the empty shape). */
  datatype Data = Text | Plain | Array(shape: Shape)

  /** `np.atleast_1d`. */
  function AtLeast1D(s: Shape): Shape {
    if s == [] then [1] else s
  }

  /** The step after the conversion to an array, shared by both versions of
      `normalize_data`: a 1-D array of length `n` becomes a column, any other
      array gets a new leading axis that is repeated `n` times when `n > 1`. */
  function Replicate(s: Shape, n: int): (r: Shape)
    requires |s| >= 1
  {
    var lead: nat := if n > 1 then n else 1;
    if |s| == 1 then
      if s[0] == n then [s[0], 1] else [lead] + s
    else
      if s[0] != n then [lead] + s else s
  }

  /** `normalize_data(data, n)` as written: a string is first wrapped as a
      1x1 object array, so it takes the many-dimensional branch. */
  function NormalizeShapeAsWritten(d: Data, n: int): (r: Shape)
    ensures n >= 1 ==> |r| >= 2 && r[0] == n
    ensures d.Text? && n > 1 ==> r == [n, 1, 1]
  {
    match d
    case Text => Replicate([1, 1], n)
    case Plain => Replicate([1], n)
    case Array(s) => Replicate(AtLeast1D(s), n)
  }

  /** `normalize_data(data, n)` with a string handled like any other
      non-sequence value, as the docstring states: shape `(n, 1)`. */
  function NormalizeShape(d: Data, n: int): (r: Shape)
    ensures n >= 1 ==> |r| >= 2 && r[0] == n
  {
    match d
    case Text => Replicate([1], n)
    case Plain => Replicate([1], n)
    case Array(s) => Replicate(AtLeast1D(s), n)
  }

  /** The docstring's table of cases, for `n >= 1`. */
  lemma NormalizeCases(d: Data, n: int)
    requires n >= 1
    ensures (d.Text? || d.Plain? || (d.Array? && d.shape == [])) ==> NormalizeShape(d, n) == [n, 1]
    ensures d.Array? && |d.shape| == 1 ==>
      NormalizeShape(d, n) == if d.shape[0] == n then [n, 1] else [n, d.shape[0]]
    ensures d.Array? && |d.shape| > 1 ==>
      NormalizeShape(d, n) == if d.shape[0] == n then d.shape else [n] + d.shape
  {
  }

  /** Data already normalized for `n` is left as it is. */
  lemma NormalizeIdempotent(d: Data, n: int)
    requires n >= 1
    ensures NormalizeShape(Array(NormalizeShape(d, n)), n) == NormalizeShape(d, n)
  {
    var r := NormalizeShape(d, n);
    assert |r| >= 2 && r[0] == n;
  }

  /** The doctests of `normalize_data`. */
  lemma NormalizeDoctests()
    ensures NormalizeShape(Plain, 1) == [1, 1] && NormalizeShape(Plain, 2) == [2, 1]
    ensures NormalizeShape(Array([1]), 1) == [1, 1] && NormalizeShape(Array([1]), 2) == [2, 1]
    ensures NormalizeShape(Array([2]), 1) == [1, 2] && NormalizeShape(Array([2]), 2) == [2, 1]
    ensures NormalizeShape(Array([1, 1]), 1) == [1, 1] && NormalizeShape(Array([1, 1]), 2) == [2, 1, 1]
    ensures NormalizeShape(Array([2, 1]), 1) == [1, 2, 1] && NormalizeShape(Array([2, 1]), 2) == [2, 1]
  {
  }

  /** As written, a string replicated for `n = 2` gets shape `(2, 1, 1)`
      where the docstring promises `(2, 1)` for every non-sequence value. */
  lemma TextShapeAsWritten()
    ensures NormalizeShapeAsWritten(Text, 2) == [2, 1, 1]
    ensures NormalizeShapeAsWritten(Plain, 2) == [2, 1]
    ensures NormalizeShape(Text, 2) == [2, 1]
  {
  }

  /** Away from strings the two versions agree. */
  lemma NormalizeAgrees(d: Data, n: int)
    requires !d.Text? || n == 1
    ensures NormalizeShapeAsWritten(d, n) == NormalizeShape(d, n)
  {
  }

  /** What an operation returned: a numpy array of some shape, or anything else. */
  datatype Value = NdArray(shape: Shape) | Other

  function ShapeOf(v: Value): Shape {
    if v.NdArray? then v.shape else []
  }

  /** `TypeIncorrect` and `FormatIncorrect` are the two `ValueError`s the
      adapters raise; `ShapeIndexError` is the `IndexError` numpy raises
      when `shape[0]` is read from a 0-d array; `BroadcastError` is the
      `ValueError` of an assignment whose shapes do not broadcast. */
  datatype ShapeError = TypeIncorrect | FormatIncorrect | ShapeIndexError | BroadcastError

  /** The check shared by `simulator_operation` and `summary_operation`. */
  function CheckLeading(out: Value, n: int): Option<ShapeError> {
    match out
    case Other => Some(TypeIncorrect)
    case NdArray(s) =>
      if s == [] then Some(ShapeIndexError)
      else if s[0] != n || |s| < 2 then Some(FormatIncorrect)
      else None
  }

  /** A simulator's output is accepted exactly when it is an array with at
      least two dimensions whose first is `n_sim`. */
  function SimulatorCheck(out: Value, nSim: int): (r: Option<ShapeError>)
    ensures r.None? <==> out.NdArray? && |out.shape| >= 2 && out.shape[0] == nSim
    ensures r == Some(TypeIncorrect) <==> out.Other?
  {
    CheckLeading(out, nSim)
  }

  /** A summary's output is accepted exactly when it is an array with at
      least two dimensions whose first is the batch length `n`. */
  function SummaryCheck(out: Value, n: int): (r: Option<ShapeError>)
    ensures r.None? <==> out.NdArray? && |out.shape| >= 2 && out.shape[0] == n
    ensures r == Some(TypeIncorrect) <==> out.Other?
  {
    CheckLeading(out, n)
  }

  /** A discrepancy's output is accepted exactly when it has shape `(n, 1)`. */
  function DiscrepancyCheck(out: Value, n: int): (r: Option<ShapeError>)
    ensures r.None? <==> out.NdArray? && |out.shape| == 2 && out.shape[0] == n && out.shape[1] == 1
    ensures r == Some(TypeIncorrect) <==> out.Other?
  {
    match out
    case Other => Some(TypeIncorrect)
    case NdArray(s) => if n < 0 || s != [n as nat, 1] then Some(FormatIncorrect) else None
  }

  /** numpy's rule for `target[i] = value`: leading axes of length 1 of the
      value may be dropped, then the shapes are compared from the right and
      each axis of the value must match or be 1. */
  predicate BroadcastsTo(src: Shape, dst: Shape)
    decreases |src|
  {
    if |src| > |dst| then src[0] == 1 && BroadcastsTo(src[1..], dst)
    else forall k :: 0 <= k < |src| ==> src[k] == 1 || src[k] == dst[|dst| - |src| + k]
  }

  lemma {:induction false} BroadcastsToSelf(s: Shape)
    ensures BroadcastsTo(s, s)
  {
  }

  /** The first sample whose output makes `vectorize_simulator` raise, or
      `|outs|` when there is none. */
  function FirstBad(outs: seq<Value>): (k: nat)
    ensures k <= |outs|
    ensures k < |outs| ==> outs[k].Other? || (k > 0 && !BroadcastsTo(ShapeOf(outs[k]), ShapeOf(outs[0])))
    ensures forall j :: 0 <= j < k ==> outs[j].NdArray? && BroadcastsTo(ShapeOf(outs[j]), ShapeOf(outs[0]))
  {
    FirstBadFrom(outs, 0)
  }

  function FirstBadFrom(outs: seq<Value>, i: nat): (k: nat)
    requires i <= |outs|
    requires forall j :: 0 <= j < i ==> outs[j].NdArray? && BroadcastsTo(ShapeOf(outs[j]), ShapeOf(outs[0]))
    ensures i <= k <= |outs|
    ensures k < |outs| ==> outs[k].Other? || (k > 0 && !BroadcastsTo(ShapeOf(outs[k]), ShapeOf(outs[0])))
    ensures forall j :: 0 <= j < k ==> outs[j].NdArray? && BroadcastsTo(ShapeOf(outs[j]), ShapeOf(outs[0]))
    decreases |outs| - i
  {
    if i == |outs| then i
    else if outs[i].Other? then i
    else if i == 0 then (BroadcastsToSelf(ShapeOf(outs[0])); FirstBadFrom(outs, 1))
    else if !BroadcastsTo(ShapeOf(outs[i]), ShapeOf(outs[0])) then i
    else FirstBadFrom(outs, i + 1)
  }

  /** What `vectorize_simulator` returns for the outputs `outs` of its
      `n_sim = |outs|` sequential calls: `None` for no calls, else an array
      of shape `(n_sim,) + shape of the first output`. */
  function Vectorized(outs: seq<Value>): (r: Result<Option<Shape>, ShapeError>)
    ensures r.Success? <==>
      forall j :: 0 <= j < |outs| ==> outs[j].NdArray? && BroadcastsTo(ShapeOf(outs[j]), ShapeOf(outs[0]))
    ensures r.Success? ==> (r.value.None? <==> outs == [])
    ensures r.Success? && outs != [] ==> r.value == Some([|outs|] + ShapeOf(outs[0]))
    ensures r.Failure? ==>
      exists k :: 0 <= k < |outs| && (if outs[k].Other? then r.error == TypeIncorrect else r.error == BroadcastError)
  {
    var k := FirstBad(outs);
    if k < |outs| then
      Failure(if outs[k].Other? then TypeIncorrect else BroadcastError)
    else if outs == [] then Success(None)
    else Success(Some([|outs|] + ShapeOf(outs[0])))
  }

  /** `vectorize_simulator`: call the simulator once per sample (its outputs
      are the parameter `outs`), check each output is an array, and assign
      it into an array shaped after the first one. */
  method VectorizeSimulator(outs: seq<Value>) returns (r: Result<Option<Shape>, ShapeError>)
    ensures r == Vectorized(outs)
  {
    var data: Option<Shape> := None;
    var i := 0;
    while i < |outs|
      invariant 0 <= i <= |outs|
      invariant forall j :: 0 <= j < i ==> outs[j].NdArray? && BroadcastsTo(ShapeOf(outs[j]), ShapeOf(outs[0]))
      invariant data == if i == 0 then None else Some([|outs|] + ShapeOf(outs[0]))
    {
      var d := outs[i];
      if d.Other? {
        return Failure(TypeIncorrect);
      }
      if data.None? {
        data := Some([|outs|] + d.shape);
        BroadcastsToSelf(d.shape);
      }
      if !BroadcastsTo(d.shape, data.value[1..]) {
        assert data.value[1..] == ShapeOf(outs[0]);
        return Failure(BroadcastError);
      }
      assert data.value[1..] == ShapeOf(outs[0]);
      i := i + 1;
    }
    return Success(data);
  }

  /** A vectorized simulator passes `simulator_operation`'s check exactly
      when its per-sample output has at least one dimension. */
  lemma VectorizedPassesCheck(outs: seq<Value>)
    requires Vectorized(outs).Success? && Vectorized(outs).value.Some?
    ensures SimulatorCheck(NdArray(Vectorized(outs).value.value), |outs|).None? <==> |ShapeOf(outs[0])| >= 1
  {
  }
}

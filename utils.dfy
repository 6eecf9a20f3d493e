/** The slice and key helpers the engine imports from `elfi.utils`: half-open
    sample ranges `[start, stop)` and the keys that name one node's output
    over one range. `elfi/utils.py` is not part of this model; the helpers
    are defined here from the way `elfi/core.py` uses them. */
module Utils {

  /** A Python `slice(start, stop)` with unit step over sample indices. */
  datatype Slice = Slice(start: int, stop: int)

  function Min(a: int, b: int): int { if a <= b then a else b }
  function Max(a: int, b: int): int { if a <= b then b else a }

  /** Sample index `k` lies in the slice. */
  predicate Contains(s: Slice, k: int) {
    s.start <= k < s.stop
  }

  /** `slen`: the number of indices the slice covers; an empty or reversed
      slice covers none. */
  function SLen(s: Slice): (n: nat)
    ensures n > 0 <==> s.start < s.stop
    ensures s.start + n == Max(s.start, s.stop)
  {
    if s.start < s.stop then s.stop - s.start else 0
  }

  /** `slice_intersect(a, b)`: the indices both slices cover. */
  function Intersect(a: Slice, b: Slice): (r: Slice)
    ensures forall k :: Contains(r, k) <==> Contains(a, k) && Contains(b, k)
    ensures SLen(r) <= SLen(a) && SLen(r) <= SLen(b)
  {
    Slice(Max(a.start, b.start), Min(a.stop, b.stop))
  }

  /** `slice_intersect(s, offset=o)`: the slice moved down by `o`, so that
      index `o` of the sample space becomes index 0 of a chunk. */
  function Offset(s: Slice, o: int): (r: Slice)
    ensures forall k :: Contains(r, k) <==> Contains(s, k + o)
    ensures SLen(r) == SLen(s)
  {
    Slice(s.start - o, s.stop - o)
  }

  /** The part of `t` covered by `[a, c)` splits at any `b` between them. */
  lemma IntersectSplit(a: int, b: int, c: int, t: Slice)
    requires a <= b <= c
    ensures SLen(Intersect(Slice(a, c), t)) == SLen(Intersect(Slice(a, b), t)) + SLen(Intersect(Slice(b, c), t))
  {
  }

  /** `make_key_id(task name, node name, version)`: the id of one version
      of a node's output. */
  datatype NodeKey = NodeKey(task: string, node: string, version: nat)

  /** `make_key(id, sl)`: the key of one node's output over one range;
      `get_key_slice` reads the range back. */
  datatype Key = Key(id: NodeKey, sl: Slice)
}

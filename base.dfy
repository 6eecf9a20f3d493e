/** Small value types and list operations shared by the graph layer and the
    operation engine: an Option type for Python's `None`, and the list surgery
    (`insert`, `del`, `remove`, append-if-absent) that the source performs on
    its Python lists. */
module Base {

  datatype Option<+T> = None | Some(value: T) {
    function GetOr(default: T): T {
      match this
      case Some(v) => v
      case None => default
    }
  }

  datatype Result<+R, +E> = Success(value: R) | Failure(error: E)

  /** No element occurs twice. */
  ghost predicate NoDup<T>(s: seq<T>) {
    forall i, j :: 0 <= i < j < |s| ==> s[i] != s[j]
  }

  /** Python's `list.insert(i, x)` for an index already known to be in range. */
  function InsertAt<T(!new)>(s: seq<T>, i: nat, x: T): (r: seq<T>)
    requires i <= |s|
    ensures |r| == |s| + 1 && r[i] == x
    ensures r[..i] == s[..i] && r[i + 1..] == s[i..]
    ensures forall y :: y in r <==> y == x || y in s
  {
    assert s == s[..i] + s[i..];
    s[..i] + [x] + s[i..]
  }

  /** Python's `del s[i]` for an index already known to be in range. */
  function DeleteAt<T>(s: seq<T>, i: nat): (r: seq<T>)
    requires i < |s|
    ensures |r| == |s| - 1
    ensures r[..i] == s[..i] && r[i..] == s[i + 1..]
  {
    s[..i] + s[i + 1..]
  }

  /** The position of the first occurrence of `x` in `s`. */
  function IndexOf<T(==)>(s: seq<T>, x: T): (i: nat)
    requires x in s
    ensures i < |s| && s[i] == x
    ensures forall j :: 0 <= j < i ==> s[j] != x
  {
    if s[0] == x then 0 else 1 + IndexOf(s[1..], x)
  }

  /** Python's `s.remove(x)`: delete the first occurrence of `x`. */
  function RemoveFirst<T(==)>(s: seq<T>, x: T): (r: seq<T>)
    requires x in s
    ensures |r| == |s| - 1
  {
    DeleteAt(s, IndexOf(s, x))
  }

  /** Append, in order, every element of `xs` that is not already present:
      the `if m not in acc: acc.append(m)` loops of the source. */
  function Merge<T(==)>(acc: seq<T>, xs: seq<T>): seq<T>
    decreases |xs|
  {
    if xs == [] then acc
    else Merge(if xs[0] in acc then acc else acc + [xs[0]], xs[1..])
  }

  lemma InsertAtNoDup<T(!new)>(s: seq<T>, i: nat, x: T)
    requires i <= |s| && NoDup(s) && x !in s
    ensures NoDup(InsertAt(s, i, x))
  {
    var r := InsertAt(s, i, x);
    forall a, b | 0 <= a < b < |r| ensures r[a] != r[b] {
      if a == i {
        assert r[b] == s[b - 1];
      } else if b == i {
        assert r[a] == s[a];
      } else {
        var a' := if a < i then a else a - 1;
        var b' := if b < i then b else b - 1;
        assert r[a] == s[a'] && r[b] == s[b'];
      }
    }
  }

  lemma DeleteAtFacts<T>(s: seq<T>, i: nat)
    requires i < |s| && NoDup(s)
    ensures NoDup(DeleteAt(s, i))
    ensures forall y :: y in DeleteAt(s, i) <==> y in s && y != s[i]
  {
    var r := DeleteAt(s, i);
    assert s == s[..i] + [s[i]] + s[i + 1..];
    forall a, b | 0 <= a < b < |r| ensures r[a] != r[b] {
      var a' := if a < i then a else a + 1;
      var b' := if b < i then b else b + 1;
      assert r[a] == s[a'] && r[b] == s[b'];
    }
  }

  lemma RemoveFirstFacts<T>(s: seq<T>, x: T)
    requires x in s && NoDup(s)
    ensures NoDup(RemoveFirst(s, x))
    ensures forall y :: y in RemoveFirst(s, x) <==> y in s && y != x
  {
    DeleteAtFacts(s, IndexOf(s, x));
  }

  /** Merging keeps the accumulator as a prefix, adds exactly the elements of
      `xs`, and introduces no duplicate. */
  lemma {:induction false} MergeFacts<T>(acc: seq<T>, xs: seq<T>)
    requires NoDup(acc)
    ensures NoDup(Merge(acc, xs))
    ensures acc <= Merge(acc, xs)
    ensures forall y :: y in Merge(acc, xs) <==> y in acc || y in xs
    decreases |xs|
  {
    if xs != [] {
      var acc' := if xs[0] in acc then acc else acc + [xs[0]];
      assert NoDup(acc');
      MergeFacts(acc', xs[1..]);
      assert acc <= acc';
      assert xs == [xs[0]] + xs[1..];
    }
  }

  /** Every element of `xs` ends up in the merge. */
  lemma {:induction false} MergeFacts2<T>(acc: seq<T>, xs: seq<T>, x: T)
    requires x in xs
    ensures x in Merge(acc, xs)
    decreases |xs|
  {
    if xs[0] != x {
      MergeFacts2(if xs[0] in acc then acc else acc + [xs[0]], xs[1..], x);
    } else {
      MergeKeeps(if xs[0] in acc then acc else acc + [xs[0]], xs[1..], x);
    }
  }

  /** Merging never loses an element of the accumulator. */
  lemma {:induction false} MergeKeeps<T>(acc: seq<T>, xs: seq<T>, x: T)
    requires x in acc
    ensures x in Merge(acc, xs)
    decreases |xs|
  {
    if xs != [] {
      MergeKeeps(if xs[0] in acc then acc else acc + [xs[0]], xs[1..], x);
    }
  }

  lemma MergeStep<T>(acc: seq<T>, xs: seq<T>, x: T)
    ensures Merge(acc, xs + [x]) == Merge(Merge(acc, xs), [x])
    decreases |xs|
  {
    if xs != [] {
      assert (xs + [x])[1..] == xs[1..] + [x];
      MergeStep(if xs[0] in acc then acc else acc + [xs[0]], xs[1..], x);
    }
  }
}

/** `prepare_store`: how the user's `store` argument of an operation is turned
    into a store object. The stores themselves (`ElfiStore`, `MemoryStore`,
    `LocalDataStore` in `elfi/storage.py`) are not part of this model; they
    appear only as which kind of store comes back. */
module Store {
  import opened Base

  /** The argument as the source tells its cases apart: `None`, an
      `ElfiStore` instance, a string, or any other (sliceable) object. The
      numbers stand for the identity of the object passed. */
  datatype StoreSpec = NoStore | Instance(obj: nat) | Identifier(text: string) | Sliceable(obj: nat)

  /** What `prepare_store` returns: the given store, a fresh `MemoryStore`,
      or a `LocalDataStore` wrapping the object. */
  datatype Store = Given(obj: nat) | Memory | Local(obj: nat)

  datatype StoreError = UnknownIdentifier(text: string)

  /** `str.lower` on the ASCII letters; every other character is kept. */
  function LowerChar(c: char): char {
    if 'A' <= c <= 'Z' then (c as int + 32) as char else c
  }

  function Lower(s: string): (r: string)
    ensures |r| == |s| && forall i :: 0 <= i < |s| ==> r[i] == LowerChar(s[i])
  {
    if s == [] then [] else [LowerChar(s[0])] + Lower(s[1..])
  }

  function PrepareStore(spec: StoreSpec): (r: Result<Option<Store>, StoreError>)
    ensures r.Failure? <==> spec.Identifier? && Lower(spec.text) != "cache"
    ensures r.Failure? ==> r.error == UnknownIdentifier(spec.text)
    ensures r.Success? && r.value.None? <==> spec.NoStore?
    ensures spec.Instance? ==> r == Success(Some(Given(spec.obj)))
    ensures spec.Sliceable? ==> r == Success(Some(Local(spec.obj)))
  {
    match spec
    case NoStore => Success(None)
    case Instance(o) => Success(Some(Given(o)))
    case Identifier(s) =>
      if Lower(s) == "cache" then Success(Some(Memory)) else Failure(UnknownIdentifier(s))
    case Sliceable(o) => Success(Some(Local(o)))
  }

  /** The identifier `"cache"` is recognised in any mix of upper and lower
      case, and no other string is. */
  lemma CacheIdentifier(s: string)
    ensures PrepareStore(Identifier(s)).Success?
      <==> |s| == 5 && forall i :: 0 <= i < 5 ==> s[i] == "cache"[i] || s[i] == "CACHE"[i]
    ensures PrepareStore(Identifier(s)).Success? ==> PrepareStore(Identifier(s)).value == Some(Memory)
  {
    if |s| == 5 && forall i :: 0 <= i < 5 ==> s[i] == "cache"[i] || s[i] == "CACHE"[i] {
      assert Lower(s) == "cache";
    }
  }
}

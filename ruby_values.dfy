/**
 * The Ruby values the schema and query builders handle, and the lookup of a
 * field by its id that both builders perform (`__info().index {...}`).
 */
module RubyValues {
  import opened Wrappers

  /** The Ruby objects that reach the builders: nil, booleans, integers, symbols, strings, ranges and arrays. */
  datatype Value =
    | Nil
    | Bool(b: bool)
    | Int(i: int)
    | Sym(name: string)
    | Str(s: string)
    | Range(first: Value, last: Value, exclusive: bool)
    | Arr(items: seq<Value>)

  /** Ruby truthiness: everything except nil and false. */
  predicate Truthy(v: Value)
  {
    !(v.Nil? || v == Bool(false))
  }

  /** `array.index {|x| x == id}`: the first position holding `id`, or None. */
  function IndexOf(ids: seq<string>, id: string): (r: Option<nat>)
    ensures r.Some? ==> r.value < |ids| && ids[r.value] == id
    ensures r.Some? ==> forall j :: 0 <= j < r.value ==> ids[j] != id
    ensures r.None? <==> id !in ids
  {
    if |ids| == 0 then None
    else if ids[0] == id then Some(0)
    else
      match IndexOf(ids[1..], id)
      case None => None
      case Some(k) => Some(k + 1)
  }

  /** With distinct ids, the position of the id at position i is i. */
  lemma IndexOfDistinct(ids: seq<string>, i: nat)
    requires i < |ids|
    requires forall j, k :: 0 <= j < k < |ids| ==> ids[j] != ids[k]
    ensures IndexOf(ids, ids[i]) == Some(i)
  {
  }
}

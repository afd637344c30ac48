/** Keys with their values in arrival order, as queries, forms and header fields keep them. */
module Multimaps {
  import opened Strings

  type Multimap = map<string, seq<string>>

  /** `params_[key].emplace_back(value)` */
  function Added(m: Multimap, key: string, value: string): Multimap {
    m[key := (if key in m then m[key] else []) + [value]]
  }

  function AddedAll(m: Multimap, pairs: seq<(string, string)>): Multimap
    decreases |pairs|
  {
    if pairs == [] then m else AddedAll(Added(m, pairs[0].0, pairs[0].1), pairs[1..])
  }

  /** The first value of `key`, or the empty string when there is none. */
  function First(m: Multimap, key: string): string {
    if key in m && m[key] != [] then m[key][0] else ""
  }

  /** The values that go with `key` in a list of pairs, in order. */
  function ValuesOf(pairs: seq<(string, string)>, key: string): seq<string>
    decreases |pairs|
  {
    if pairs == [] then [] else (if pairs[0].0 == key then [pairs[0].1] else []) + ValuesOf(pairs[1..], key)
  }

  /** Adding pairs one by one groups them by key and keeps the order within each key. */
  lemma {:induction false} AddedAllGroups(m: Multimap, pairs: seq<(string, string)>, key: string)
    ensures key in AddedAll(m, pairs) <==> key in m || ValuesOf(pairs, key) != []
    ensures key in AddedAll(m, pairs) ==>
      AddedAll(m, pairs)[key] == (if key in m then m[key] else []) + ValuesOf(pairs, key)
    decreases |pairs|
  {
    if pairs != [] {
      AddedAllGroups(Added(m, pairs[0].0, pairs[0].1), pairs[1..], key);
      var before := if key in m then m[key] else [];
      var head := if pairs[0].0 == key then [pairs[0].1] else [];
      Associative(before, head, ValuesOf(pairs[1..], key));
    }
  }
}

/** Header fields: a multimap whose keys are compared without regard to case. */
module HttpHeaders {
  import opened Strings
  import opened Multimaps

  class HTTPHeader {
    var members: Multimap  // keyed by the lower-case form

    constructor ()
      ensures members == map[]
    {
      members := map[];
    }

    method Add(key: string, value: string)
      modifies this
      ensures forall k :: Values(k) == if SameWord(k, key) then old(Values(k)) + [value] else old(Values(k))
      ensures forall k :: Has(k) <==> SameWord(k, key) || old(Has(k))
      ensures members == Added(old(members), Lower(key), value)
    {
      SameKeys(key);
      members := Added(members, Lower(key), value);
    }

    method Set(key: string, value: string)
      modifies this
      ensures forall k :: Values(k) == if SameWord(k, key) then [value] else old(Values(k))
      ensures forall k :: Has(k) <==> SameWord(k, key) || old(Has(k))
    {
      SameKeys(key);
      members := members[Lower(key) := [value]];
    }

    method Del(key: string)
      modifies this
      ensures forall k :: Values(k) == if SameWord(k, key) then [] else old(Values(k))
      ensures forall k :: Has(k) <==> !SameWord(k, key) && old(Has(k))
    {
      SameKeys(key);
      members := members - {Lower(key)};
    }

    method Clear()
      modifies this
      ensures members == map[]
    {
      members := map[];
    }

    /** Fields go under the same key if and only if their names differ in case at most. */
    lemma SameKeys(key: string)
      ensures forall k :: Lower(k) == Lower(key) <==> SameWord(k, key)
    {
      hide SameWord;
      forall k
        ensures Lower(k) == Lower(key) <==> SameWord(k, key)
      {
        SameWordIff(k, key);
      }
    }

    predicate Has(key: string)
      reads this
    {
      Lower(key) in members
    }

    function Values(key: string): seq<string>
      reads this
    {
      if Has(key) then members[Lower(key)] else []
    }

    /** The first value, or the empty string when there is none. */
    function Get(key: string): (v: string)
      reads this
      ensures Values(key) != [] ==> v == Values(key)[0]
      ensures Values(key) == [] ==> v == ""
    {
      if Has(key) && members[Lower(key)] != [] then members[Lower(key)][0] else ""
    }

    /** The first value, as a C string, is `target`. */
    predicate Equals(key: string, target: string)
      reads this
    {
      Values(key) != [] && CStr(Values(key)[0]) == CStr(target)
    }
  }
}

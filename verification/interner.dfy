/** The string interner of the indexer (`StrTab` in kythe/cs/cmd/index/index.go):
    a table that hands out dense integer handles for strings and only ever
    appends. */
module Interner {
  import opened Wrappers

  /** A handle into a string table (Go `StrIndex`, an int32 that is never negative). */
  type StrIndex = nat

  datatype InternError = AppendToDeserialized

  class StrTab {
    /** Whether the lookup map exists; a table decoded from disk has none. */
    var live: bool
    var m: map<string, StrIndex>
    var strs: seq<string>

    /** When the map exists it is exactly the inverse of `strs`; without it
        the table is a bare list of strings. */
    ghost predicate Valid()
      reads this
    {
      && (live ==> forall s :: s in m ==> m[s] < |strs| && strs[m[s]] == s)
      && (live ==> forall i :: 0 <= i < |strs| ==> strs[i] in m && m[strs[i]] == i)
      && (!live ==> m == map[])
    }

    /** New strings may be interned: the map exists, or the table is still empty. */
    predicate Writable()
      reads this
    {
      live || |strs| == 0
    }

    /** The zero value of a `StrTab`. */
    constructor Empty()
      ensures Valid() && Writable()
      ensures strs == []
    {
      live, m, strs := false, map[], [];
    }

    /** A table as it comes out of deserialization: strings, no lookup map. */
    constructor Decoded(s: seq<string>)
      ensures Valid() && !live
      ensures strs == s
    {
      live, m, strs := false, map[], s;
    }

    /** `idx`: the existing handle of `s`, or a new one at the end of the table.
        Appending to a decoded, non-empty table fails. */
    method Idx(s: string) returns (r: Result<StrIndex, InternError>)
      requires Valid()
      modifies this
      ensures Valid()
      ensures r.Failure? <==> !old(live) && old(|strs|) != 0
      ensures r.Failure? ==> live == old(live) && m == old(m) && strs == old(strs)
      ensures r.Success? ==> live && r.value < |strs| && strs[r.value] == s && s in m && m[s] == r.value
      ensures r.Success? && s in old(strs) ==> strs == old(strs) && s in old(m) && r.value == old(m[s])
      ensures r.Success? && s !in old(strs) ==> strs == old(strs) + [s] && r.value == old(|strs|)
    {
      if !live {
        if |strs| != 0 {
          return Failure(AppendToDeserialized);
        }
        live, m := true, map[];
      }
      if s in m {
        return Success(m[s]);
      }
      assert s !in strs;
      var i := |strs|;
      strs := strs + [s];
      m := m[s := i];
      return Success(i);
    }

    /** `get`: the string behind a handle. */
    function Get(i: StrIndex): string
      reads this
      requires i < |strs|
    {
      strs[i]
    }
  }

  /** A table with a lookup map never holds a string twice, so a string has
      one handle. */
  lemma HandlesUnique(t: StrTab, i: nat, j: nat)
    requires t.Valid() && t.live
    requires i < |t.strs| && j < |t.strs| && t.strs[i] == t.strs[j]
    ensures i == j
  {
    assert t.m[t.strs[i]] == i && t.m[t.strs[j]] == j;
  }
}

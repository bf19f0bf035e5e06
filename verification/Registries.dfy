/** Name-to-identifier registration (vtelem/registry/__init__.py, vtelem/channel/registry.py). */
module Registries {
  import opened Wrappers
  import opened Primitives

  /** The attributes of a channel that framing and parsing look at; they never change. */
  datatype ChannelInfo = ChannelInfo(name: string, prim: Primitive, isStream: bool)

  class Registry<T> {
    var items: map<int, T>
    var mappings: map<string, int>
    var currId: nat

    /** Everything registered so far; an entry's index is its identifier. */
    ghost var entries: seq<(string, T)>

    ghost predicate Valid()
      reads this
    {
      && currId == |entries|
      && items == (map id: int | 0 <= id < |entries| :: entries[id].1)
      && (forall i :: 0 <= i < |entries| ==> entries[i].0 in mappings && mappings[entries[i].0] == i)
      && (forall n :: n in mappings ==> 0 <= mappings[n] < |entries| && entries[mappings[n]].0 == n)
    }

    constructor ()
      ensures Valid() && entries == []
    {
      items := map[];
      mappings := map[];
      currId := 0;
      entries := [];
    }

    function GetItem(id: int): (r: Option<T>)
      requires Valid()
      reads this
      ensures r == if 0 <= id < |entries| then Some(entries[id].1) else None
    {
      if id in items then Some(items[id]) else None
    }

    /** Names and identifiers determine each other. */
    function GetId(name: string): (r: Option<int>)
      requires Valid()
      reads this
      ensures r.Some? ==> 0 <= r.value < |entries| && entries[r.value].0 == name
      ensures forall i :: 0 <= i < |entries| && entries[i].0 == name ==> r == Some(i)
    {
      if name in mappings then Some(mappings[name]) else None
    }

    /** A new name gets the next identifier; a known one is turned away and nothing changes. */
    method Add(name: string, data: T) returns (ok: bool, id: int)
      requires Valid()
      modifies this
      ensures Valid()
      ensures ok <==> old(GetId(name)).None?
      ensures ok ==> id == |old(entries)| && entries == old(entries) + [(name, data)]
      ensures !ok ==> id == -1 && unchanged(this)
    {
      if GetId(name).Some? {
        return false, -1;
      }
      items := items[currId := data];
      mappings := mappings[name := currId];
      ok, id := true, currId;
      currId := currId + 1;
      entries := entries + [(name, data)];
    }
  }

  /** The registry as the parser sees it. */
  type ChannelTable = map<int, ChannelInfo>
}

/** `PoolSelector.get_pool_info`: looking a pool up by name in the list
    read from `pools.json`. */
module Pools {

  import opened Wrappers
  import opened Text

  /** One entry of `pools.json`, with the fields the controller uses: its
      display name, host URL and port. */
  datatype Pool = Pool(name: string, url: string, port: int)

  /** `pool['name'].lower() == pool_name.lower()`. */
  predicate NameMatches(p: Pool, name: string) {
    Lower(p.name) == Lower(name)
  }

  /** `get_pool_info`: the first pool whose name equals `name` when both are
      lower-cased, or `None` when there is none. */
  function GetPoolInfo(pools: seq<Pool>, name: string): (r: Option<Pool>)
    ensures r.None? <==> forall i :: 0 <= i < |pools| ==> !NameMatches(pools[i], name)
    ensures r.Some? ==> exists i :: 0 <= i < |pools| && pools[i] == r.value && NameMatches(pools[i], name)
                                    && forall j :: 0 <= j < i ==> !NameMatches(pools[j], name)
  {
    if pools == [] then None
    else if NameMatches(pools[0], name) then Some(pools[0])
    else
      var r := GetPoolInfo(pools[1..], name);
      assert forall i :: 0 < i < |pools| ==> pools[i] == pools[1..][i - 1];
      r
  }

  /** The lookup ignores the case of the name asked for. */
  lemma GetPoolInfoIgnoresCase(pools: seq<Pool>, name: string)
    ensures GetPoolInfo(pools, Lower(name)) == GetPoolInfo(pools, name)
  {
    LowerIsLower(name);
    LowerOfLower(Lower(name));
  }
}

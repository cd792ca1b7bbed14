/** The origins each web application may be used from. */
module Cors {
  import opened Wrappers
  import opened Text
  import opened RequestContext

  datatype OriginConfig = OriginConfig(appId: Str, allowed: seq<Str>)

  type Index = map<Str, set<Str>>

  /** The last configuration entry of the application lists the origin. */
  ghost predicate Allowed(configs: seq<OriginConfig>, appId: Str, origin: Str) {
    exists i :: 0 <= i < |configs| && configs[i].appId == appId && origin in configs[i].allowed
                && forall j :: i < j < |configs| ==> configs[j].appId != appId
  }

  predicate Lists(index: Index, appId: Str, origin: Str) {
    appId in index && origin in index[appId]
  }

  /** A lookup in the index answers for the last entry. */
  ghost predicate Indexes(index: Index, configs: seq<OriginConfig>) {
    forall appId, origin :: Lists(index, appId, origin) <==> Allowed(configs, appId, origin)
  }

  /** The fold over the configuration; a later entry replaces an earlier one. */
  method BuildIndex(configs: seq<OriginConfig>) returns (index: Index)
    ensures Indexes(index, configs)
  {
    index := map[];
    for n := 0 to |configs|
      invariant Indexes(index, configs[..n])
    {
      var config := configs[n];
      var allowed := set o | o in config.allowed;
      IndexedOneMore(configs, n, index, allowed);
      index := index[config.appId := allowed];
    }
    assert configs[..|configs|] == configs;
  }

  lemma IndexedOneMore(configs: seq<OriginConfig>, n: nat, before: Index, allowed: set<Str>)
    requires n < |configs| && Indexes(before, configs[..n])
    requires forall o :: o in allowed <==> o in configs[n].allowed
    ensures Indexes(before[configs[n].appId := allowed], configs[..n + 1])
  {
    var index := before[configs[n].appId := allowed];
    forall appId, origin
      ensures Lists(index, appId, origin) <==> Allowed(configs[..n + 1], appId, origin)
    {
      OneMoreEntry(configs, n, appId, origin);
      assert Lists(before, appId, origin) <==> Allowed(configs[..n], appId, origin);
    }
  }

  lemma OneMoreEntry(configs: seq<OriginConfig>, n: nat, appId: Str, origin: Str)
    requires n < |configs|
    ensures Allowed(configs[..n + 1], appId, origin) <==>
      if configs[n].appId == appId then origin in configs[n].allowed else Allowed(configs[..n], appId, origin)
  {
    var more, less := configs[..n + 1], configs[..n];
    assert more == less + [configs[n]];
    assert more[n] == configs[n];
    if configs[n].appId != appId {
      if Allowed(less, appId, origin) {
        var i :| 0 <= i < |less| && less[i].appId == appId && origin in less[i].allowed
                 && forall j :: i < j < |less| ==> less[j].appId != appId;
        assert more[i] == less[i];
      }
      if Allowed(more, appId, origin) {
        var i :| 0 <= i < |more| && more[i].appId == appId && origin in more[i].allowed
                 && forall j :: i < j < |more| ==> more[j].appId != appId;
        assert less[i] == more[i];
      }
    }
  }

  predicate ValidOrigin(index: Index, appId: Str, origin: Option<Str>) {
    origin.Some? && appId in index && origin.value in index[appId]
  }

  /** An origin is valid exactly if one was sent and the application lists it. */
  lemma ValidExactly(index: Index, configs: seq<OriginConfig>, appId: Str, origin: Option<Str>)
    requires Indexes(index, configs)
    ensures ValidOrigin(index, appId, origin) <==> origin.Some? && Allowed(configs, appId, origin.value)
  {
    if origin.Some? {
      assert Lists(index, appId, origin.value) <==> Allowed(configs, appId, origin.value);
    }
  }

  /** Only web requests are held to an origin, and only when CORS is configured. */
  predicate OriginAccepted(cors: Option<Index>, appId: Str, platform: Platform, origin: Option<Str>) {
    cors.Some? && platform == Web ==> ValidOrigin(cors.value, appId, origin)
  }
}

/** `initReservesByHelper` of `helpers/init-helpers.ts`: one strategy deployment per strategy name,
    aligned parameter lists, and batches of one. */
module InitReserves {
  import opened Chunks

  datatype StrategyRates = StrategyRates(optimalUtilizationRate: string, baseVariableBorrowRate: string,
                                         variableRateSlope1: string, variableRateSlope2: string)
  datatype Reserve = Reserve(symbol: string, strategyName: string, rates: StrategyRates, cTokenImpl: string, decimals: string)
  datatype Deployment = Deployment(name: string, rates: StrategyRates)

  /** The texts shared by all reserves. */
  datatype Market = Market(cTokenNamePrefix: string, cTokenSymbolPrefix: string, debtTokenNamePrefix: string,
                           debtTokenSymbolPrefix: string, treasury: string, debtTokenImpl: string)

  datatype InitParam = InitParam(cTokenImpl: string, debtTokenImpl: string, underlyingAssetDecimals: string,
                                 interestRateAddress: string, underlyingAsset: string, treasury: string,
                                 underlyingAssetName: string, cTokenName: string, cTokenSymbol: string,
                                 debtTokenName: string, debtTokenSymbol: string)

  /** The network as far as the helper uses it. The address of the n-th deployment is given. */
  class Network {
    const addressOf: nat -> string
    var deployed: seq<Deployment>
    var batches: seq<seq<InitParam>>

    constructor (addressOf: nat -> string)
      ensures this.addressOf == addressOf && deployed == [] && batches == []
    {
      this.addressOf := addressOf;
      deployed, batches := [], [];
    }

    method DeployRateStrategy(name: string, rates: StrategyRates) returns (address: string)
      modifies this`deployed
      ensures deployed == old(deployed) + [Deployment(name, rates)] && address == addressOf(|old(deployed)|)
    {
      address := addressOf(|deployed|);
      deployed := deployed + [Deployment(name, rates)];
    }

    method BatchInitReserve(batch: seq<InitParam>)
      modifies this`batches
      ensures batches == old(batches) + [batch]
    {
      batches := batches + [batch];
    }
  }

  /** Neither an absent nor an empty address counts as set. */
  predicate IsSet(addresses: map<string, string>, key: string) { key in addresses && addresses[key] != "" }

  function Configured(reserves: seq<Reserve>, tokens: map<string, string>): seq<Reserve> {
    if reserves == [] then []
    else
      var last := reserves[|reserves| - 1];
      Configured(reserves[..|reserves| - 1], tokens) + if IsSet(tokens, last.symbol) then [last] else []
  }

  lemma {:induction false} ConfiguredAreSet(reserves: seq<Reserve>, tokens: map<string, string>)
    ensures forall r :: r in Configured(reserves, tokens) <==> r in reserves && IsSet(tokens, r.symbol)
  {
    if reserves == [] {
    } else {
      var n := |reserves| - 1;
      ConfiguredAreSet(reserves[..n], tokens);
      assert reserves == reserves[..n] + [reserves[n]];
    }
  }

  // ----- Which strategies are deployed -----

  /** The position of the first reserve with this strategy name. */
  function FirstWith(reserves: seq<Reserve>, name: string): nat
    ensures FirstWith(reserves, name) <= |reserves|
  {
    if reserves == [] then 0
    else
      var n := |reserves| - 1;
      var k := FirstWith(reserves[..n], name);
      if k < n then k else if reserves[n].strategyName == name then n else n + 1
  }

  /** What the last reserve deploys: its strategy, if the name is new. */
  function NewDeployment(reserves: seq<Reserve>): seq<Deployment>
    requires reserves != []
  {
    var n := |reserves| - 1;
    var r := reserves[n];
    if FirstWith(reserves[..n], r.strategyName) < n then [] else [Deployment(r.strategyName, r.rates)]
  }

  /** One deployment for every reserve whose strategy name is new. */
  function Deployments(reserves: seq<Reserve>): seq<Deployment> {
    if reserves == [] then [] else Deployments(reserves[..|reserves| - 1]) + NewDeployment(reserves)
  }

  function Position(ds: seq<Deployment>, name: string): nat
    ensures Position(ds, name) <= |ds|
    ensures Position(ds, name) < |ds| ==> ds[Position(ds, name)].name == name
    ensures forall i :: 0 <= i < Position(ds, name) ==> ds[i].name != name
  {
    if ds == [] then 0 else if ds[0].name == name then 0 else 1 + Position(ds[1..], name)
  }

  lemma {:induction false} PositionAppend(ds: seq<Deployment>, es: seq<Deployment>, name: string)
    ensures Position(ds + es, name) == if Position(ds, name) < |ds| then Position(ds, name) else |ds| + Position(es, name)
  {
    if ds == [] {
      assert ds + es == es;
    } else {
      assert (ds + es)[1..] == ds[1..] + es;
      PositionAppend(ds[1..], es, name);
    }
  }

  lemma {:induction false} FirstWithIsFirst(reserves: seq<Reserve>, name: string)
    ensures var k := FirstWith(reserves, name);
      && (k < |reserves| ==> reserves[k].strategyName == name)
      && (forall i :: 0 <= i < k && i < |reserves| ==> reserves[i].strategyName != name)
  {
    if reserves == [] {
    } else {
      var n := |reserves| - 1;
      FirstWithIsFirst(reserves[..n], name);
      assert forall i :: 0 <= i < n ==> reserves[..n][i] == reserves[i];
    }
  }

  /** A name is deployed exactly when some reserve uses it, and then with the rates of the first that does. */
  lemma {:induction false} DeployedOnceWithFirstRates(reserves: seq<Reserve>, name: string)
    ensures var ds, k := Deployments(reserves), FirstWith(reserves, name);
      && (Position(ds, name) < |ds| <==> k < |reserves|)
      && (k < |reserves| ==> ds[Position(ds, name)] == Deployment(name, reserves[k].rates))
      && (forall i, j :: 0 <= i < j < |ds| && ds[i].name == name ==> ds[j].name != name)
  {
    hide Deployments, FirstWith;
    DeploymentsOfLast(reserves, name);
    if reserves == [] {
    } else {
      var n := |reserves| - 1;
      DeployedOnceWithFirstRates(reserves[..n], name);
      DeployedOnceWithFirstRates(reserves[..n], reserves[n].strategyName);
      AppendNew(Deployments(reserves[..n]), NewDeployment(reserves), name);
    }
  }

  lemma DeploymentsOfLast(reserves: seq<Reserve>, name: string)
    ensures reserves == [] ==> Deployments(reserves) == [] && FirstWith(reserves, name) == 0
    ensures reserves != [] ==>
      var n := |reserves| - 1;
      && Deployments(reserves) == Deployments(reserves[..n]) + NewDeployment(reserves)
      && FirstWith(reserves, name) ==
           if FirstWith(reserves[..n], name) < n then FirstWith(reserves[..n], name)
           else if reserves[n].strategyName == name then n else n + 1
  {
  }

  lemma AppendNew(ds: seq<Deployment>, more: seq<Deployment>, name: string)
    requires |more| <= 1 && (more != [] && more[0].name == name ==> Position(ds, name) == |ds|)
    requires forall i, j :: 0 <= i < j < |ds| && ds[i].name == name ==> ds[j].name != name
    ensures forall i, j :: 0 <= i < j < |ds + more| && (ds + more)[i].name == name ==> (ds + more)[j].name != name
    ensures Position(ds + more, name) == if Position(ds, name) < |ds| then Position(ds, name) else |ds| + Position(more, name)
  {
    PositionAppend(ds, more, name);
  }

  /** A reserve gets its own rates exactly when the first reserve with its strategy name has the same. */
  lemma OwnRatesIff(reserves: seq<Reserve>, i: nat)
    requires i < |reserves|
    ensures var ds, name := Deployments(reserves), reserves[i].strategyName;
      && FirstWith(reserves, name) <= i && Position(ds, name) < |ds|
      && (ds[Position(ds, name)].rates == reserves[i].rates
          <==> reserves[FirstWith(reserves, name)].rates == reserves[i].rates)
  {
    FirstWithIsFirst(reserves, reserves[i].strategyName);
    DeployedOnceWithFirstRates(reserves, reserves[i].strategyName);
  }

  // ----- The parameters -----

  function ParamOf(r: Reserve, m: Market, tokens: map<string, string>, impls: map<string, string>, strategy: string): InitParam
    requires r.symbol in tokens && r.cTokenImpl in impls
  {
    InitParam(impls[r.cTokenImpl], m.debtTokenImpl, r.decimals, strategy, tokens[r.symbol], m.treasury, r.symbol,
              m.cTokenNamePrefix + " " + r.symbol, m.cTokenSymbolPrefix + r.symbol,
              m.debtTokenNamePrefix + " " + r.symbol, m.debtTokenSymbolPrefix + r.symbol)
  }

  /** The parameter, field by field, is that of the reserve, with the given address of its strategy. */
  predicate ParamFor(param: InitParam, r: Reserve, m: Market, tokens: map<string, string>, impls: map<string, string>, strategy: string) {
    && r.symbol in tokens && r.cTokenImpl in impls
    && param.interestRateAddress == strategy
    && param.underlyingAsset == tokens[r.symbol] && param.underlyingAssetName == r.symbol
    && param.underlyingAssetDecimals == r.decimals
    && param.cTokenImpl == impls[r.cTokenImpl] && param.debtTokenImpl == m.debtTokenImpl
    && param.treasury == m.treasury
    && param.cTokenName == m.cTokenNamePrefix + " " + r.symbol && param.cTokenSymbol == m.cTokenSymbolPrefix + r.symbol
    && param.debtTokenName == m.debtTokenNamePrefix + " " + r.symbol && param.debtTokenSymbol == m.debtTokenSymbolPrefix + r.symbol
  }

  /** The address under which a reserve's strategy was deployed, the n-th deployment of this run being
      number `base + n` of the network. */
  function StrategyAddress(configured: seq<Reserve>, r: Reserve, addressOf: nat -> string, base: nat): string {
    addressOf(base + Position(Deployments(configured), r.strategyName))
  }

  /** Parameter `k` belongs to the k-th configured reserve and names the deployment of its strategy. */
  ghost predicate ParamsFor(params: seq<InitParam>, configured: seq<Reserve>, m: Market, tokens: map<string, string>,
                            impls: map<string, string>, addressOf: nat -> string, base: nat)
  {
    && |params| == |configured|
    && forall k :: 0 <= k < |params| ==>
         ParamFor(params[k], configured[k], m, tokens, impls, StrategyAddress(configured, configured[k], addressOf, base))
  }

  lemma ParamOfIsFor(r: Reserve, m: Market, tokens: map<string, string>, impls: map<string, string>, strategy: string)
    requires r.symbol in tokens && r.cTokenImpl in impls
    ensures ParamFor(ParamOf(r, m, tokens, impls, strategy), r, m, tokens, impls, strategy)
  {
  }

  /** Two reserves are sent with the same strategy exactly when they name the same one, if the network
      gives every deployment an address of its own. */
  lemma SharedStrategyIff(params: seq<InitParam>, configured: seq<Reserve>, m: Market, tokens: map<string, string>,
                          impls: map<string, string>, addressOf: nat -> string, base: nat, k: nat, l: nat)
    requires ParamsFor(params, configured, m, tokens, impls, addressOf, base) && k < |params| && l < |params|
    requires forall a: nat, b: nat :: addressOf(a) == addressOf(b) ==> a == b
    ensures params[k].interestRateAddress == params[l].interestRateAddress
       <==> configured[k].strategyName == configured[l].strategyName
  {
    OwnRatesIff(configured, k);
    OwnRatesIff(configured, l);
  }

  /** The cache knows exactly the deployed names, each with its address. */
  ghost predicate Caches(cache: map<string, string>, ds: seq<Deployment>, addressOf: nat -> string, base: nat) {
    forall name {:trigger IsSet(cache, name)} ::
      && (IsSet(cache, name) <==> Position(ds, name) < |ds|)
      && (IsSet(cache, name) ==> cache[name] == addressOf(base + Position(ds, name)))
  }

  lemma OneMoreDeployment(reserves: seq<Reserve>, r: Reserve)
    ensures var ds := Deployments(reserves);
      Deployments(reserves + [r])
        == if Position(ds, r.strategyName) < |ds| then ds else ds + [Deployment(r.strategyName, r.rates)]
  {
    DeployedOnceWithFirstRates(reserves, r.strategyName);
    assert (reserves + [r])[..|reserves|] == reserves;
  }

  /** A strategy that is deployed for a name the cache misses extends the cache. */
  lemma CacheGrows(cache: map<string, string>, ds: seq<Deployment>, addressOf: nat -> string, base: nat, d: Deployment)
    requires Caches(cache, ds, addressOf, base) && !IsSet(cache, d.name) && addressOf(base + |ds|) != ""
    ensures Caches(cache[d.name := addressOf(base + |ds|)], ds + [d], addressOf, base)
  {
    var cache' := cache[d.name := addressOf(base + |ds|)];
    forall name
      ensures (IsSet(cache', name) <==> Position(ds + [d], name) < |ds| + 1)
        && (IsSet(cache', name) ==> cache'[name] == addressOf(base + Position(ds + [d], name)))
    {
      PositionAppend(ds, [d], name);
      assert IsSet(cache', name) <==> name == d.name || IsSet(cache, name);
    }
  }

  /** The parameters already prepared stay right, and the next one joins them. */
  lemma ParamsGrow(params: seq<InitParam>, configured: seq<Reserve>, m: Market, tokens: map<string, string>,
                   impls: map<string, string>, addressOf: nat -> string, base: nat, r: Reserve)
    requires ParamsFor(params, configured, m, tokens, impls, addressOf, base)
    requires r.symbol in tokens && r.cTokenImpl in impls
    ensures var more := configured + [r];
      ParamsFor(params + [ParamOf(r, m, tokens, impls, addressOf(base + Position(Deployments(more), r.strategyName)))],
                more, m, tokens, impls, addressOf, base)
  {
    hide Deployments, Position, ParamOf, ParamFor;
    ParamOfIsFor(r, m, tokens, impls, addressOf(base + Position(Deployments(configured + [r]), r.strategyName)));
    forall k | 0 <= k < |params|
      ensures Position(Deployments(configured + [r]), configured[k].strategyName)
           == Position(Deployments(configured), configured[k].strategyName)
    {
      PositionStable(configured, r, k);
    }
  }

  /** Deploying for a later reserve does not move the deployment of an earlier one. */
  lemma PositionStable(configured: seq<Reserve>, r: Reserve, k: nat)
    requires k < |configured|
    ensures Position(Deployments(configured + [r]), configured[k].strategyName)
         == Position(Deployments(configured), configured[k].strategyName)
  {
    OneMoreDeployment(configured, r);
    OwnRatesIff(configured, k);
    PositionAppend(Deployments(configured), [Deployment(r.strategyName, r.rates)], configured[k].strategyName);
  }

  /** The symbols of the reserves that the parameters are for. */
  function AssetNames(params: seq<InitParam>): seq<string> {
    seq(|params|, i requires 0 <= i < |params| => params[i].underlyingAssetName)
  }

  lemma OneMoreName(params: seq<InitParam>, r: Reserve, m: Market, tokens: map<string, string>, impls: map<string, string>,
                    strategy: string)
    requires r.symbol in tokens && r.cTokenImpl in impls
    ensures AssetNames(params + [ParamOf(r, m, tokens, impls, strategy)]) == AssetNames(params) + [r.symbol]
  {
  }

  /** Every configured reserve is sent to the network once, in order, with the address deployed for
      its strategy name; each name is deployed once, in the order of first use. `ready` are the symbols
      logged after each batch: they are those of the reserves in that batch. */
  method InitReservesByHelper(network: Network, reserves: seq<Reserve>, tokens: map<string, string>,
                              impls: map<string, string>, m: Market)
    returns (params: seq<InitParam>, ready: seq<seq<string>>)
    requires forall n: nat :: network.addressOf(n) != ""
    requires forall r :: r in reserves && IsSet(tokens, r.symbol) ==> r.cTokenImpl in impls
    modifies network
    ensures network.deployed == old(network.deployed) + Deployments(Configured(reserves, tokens))
    ensures ParamsFor(params, Configured(reserves, tokens), m, tokens, impls, network.addressOf, |old(network.deployed)|)
    ensures network.batches == old(network.batches) + Chunk(params, 1)
    ensures Concat(Chunk(params, 1)) == params && Concat(ready) == AssetNames(params)
    ensures |ready| == |Chunk(params, 1)| && forall k :: 0 <= k < |ready| ==> |ready[k]| == |Chunk(params, 1)[k]| == 1
  {
    hide ParamsFor, Caches, Deployments, Position, Chunk, Concat, Configured, ParamOf, FirstWith, AssetNames;
    var initChunks := 1;
    var reserveSymbols: seq<string> := [];
    params := [];
    var strategyAddresses: map<string, string> := map[];
    ghost var deployed0, base, addressOf := network.deployed, |network.deployed|, network.addressOf;
    NothingYet(m, tokens, impls, addressOf, base);
    for i := 0 to |reserves|
      invariant network.batches == old(network.batches)
      invariant network.deployed == deployed0 + Deployments(Configured(reserves[..i], tokens))
      invariant Caches(strategyAddresses, Deployments(Configured(reserves[..i], tokens)), addressOf, base)
      invariant ParamsFor(params, Configured(reserves[..i], tokens), m, tokens, impls, addressOf, base)
      invariant reserveSymbols == AssetNames(params)
    {
      var r := reserves[i];
      ghost var configured := Configured(reserves[..i], tokens);
      OneMoreReserve(reserves, i, tokens);
      if !IsSet(tokens, r.symbol) {
        continue;
      }
      OneMoreDeployment(configured, r);
      CacheMeans(strategyAddresses, Deployments(configured), addressOf, base, r.strategyName);
      if !IsSet(strategyAddresses, r.strategyName) {
        CacheGrows(strategyAddresses, Deployments(configured), addressOf, base, Deployment(r.strategyName, r.rates));
        var address := network.DeployRateStrategy(r.strategyName, r.rates);
        strategyAddresses := strategyAddresses[r.strategyName := address];
        CacheMeans(strategyAddresses, Deployments(configured + [r]), addressOf, base, r.strategyName);
      }
      reserveSymbols := reserveSymbols + [r.symbol];
      ParamsGrow(params, configured, m, tokens, impls, addressOf, base, r);
      OneMoreName(params, r, m, tokens, impls, strategyAddresses[r.strategyName]);
      params := params + [ParamOf(r, m, tokens, impls, strategyAddresses[r.strategyName])];
    }
    assert reserves[..|reserves|] == reserves;
    var chunkedSymbols := Chunk(reserveSymbols, initChunks);
    var chunkedParams := Chunk(params, initChunks);
    ready := [];
    SameNumberOfBatches(params);
    for chunkIndex := 0 to |chunkedParams|
      invariant network.batches == old(network.batches) + chunkedParams[..chunkIndex]
      invariant ready == chunkedSymbols[..chunkIndex]
      invariant network.deployed == deployed0 + Deployments(Configured(reserves, tokens))
    {
      network.BatchInitReserve(chunkedParams[chunkIndex]);
      ready := ready + [chunkedSymbols[chunkIndex]];
    }
    assert chunkedParams[..|chunkedParams|] == chunkedParams;
    assert chunkedSymbols[..|chunkedSymbols|] == chunkedSymbols;
    BatchesOfOne(params);
  }

  lemma SameNumberOfBatches(params: seq<InitParam>)
    ensures |Chunk(AssetNames(params), 1)| == |Chunk(params, 1)|
  {
    BatchesOfOne(params);
  }

  lemma BatchesOfOne(params: seq<InitParam>)
    ensures var symbols, batches := Chunk(AssetNames(params), 1), Chunk(params, 1);
      && Concat(batches) == params && Concat(symbols) == AssetNames(params)
      && |symbols| == |batches| && forall k :: 0 <= k < |batches| ==> |symbols[k]| == |batches[k]| == 1
  {
    ChunksConcat(params, 1);
    ChunksConcat(AssetNames(params), 1);
    ChunksAligned(AssetNames(params), params, 1, |params|);
  }

  lemma NothingYet(m: Market, tokens: map<string, string>, impls: map<string, string>, addressOf: nat -> string, base: nat)
    ensures Deployments(Configured([], tokens)) == [] && Caches(map[], [], addressOf, base)
    ensures ParamsFor([], Configured([], tokens), m, tokens, impls, addressOf, base) && AssetNames([]) == []
  {
  }

  lemma OneMoreReserve(reserves: seq<Reserve>, i: nat, tokens: map<string, string>)
    requires i < |reserves|
    ensures Configured(reserves[..i + 1], tokens)
         == if IsSet(tokens, reserves[i].symbol) then Configured(reserves[..i], tokens) + [reserves[i]]
            else Configured(reserves[..i], tokens)
  {
    assert reserves[..i + 1][..i] == reserves[..i];
  }

  lemma CacheMeans(cache: map<string, string>, ds: seq<Deployment>, addressOf: nat -> string, base: nat, name: string)
    requires Caches(cache, ds, addressOf, base)
    ensures IsSet(cache, name) <==> Position(ds, name) < |ds|
    ensures IsSet(cache, name) ==> cache[name] == addressOf(base + Position(ds, name))
  {
  }
}

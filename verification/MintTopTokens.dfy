/** `dev:mint-top-tokens` of `tasks/dev/mock_nfts.ts`: minting a list of tokens through a
    row of signers, each of whom may mint ten. */
module MintTopTokens {

  const MINT_QUOTA: int := 10

  /** The token contract as far as the script uses it: who owns which token, and how many tokens an
      account has minted. */
  class MintableERC721 {
    var owners: map<int, string>
    var minted: map<string, nat>

    function MintCounts(account: string): nat
      reads this
    {
      CountOf(minted, account)
    }

    /** Reverts when the token exists. */
    method Mint(sender: string, tokenId: int)
      requires tokenId !in owners
      modifies this
      ensures owners == old(owners)[tokenId := sender]
      ensures minted == old(minted)[sender := CountOf(old(minted), sender) + 1]
    {
      owners := owners[tokenId := sender];
      minted := minted[sender := CountOf(minted, sender) + 1];
    }

    /** Reverts unless `from` owns the token. */
    method TransferFrom(from: string, to: string, tokenId: int)
      requires tokenId in owners && owners[tokenId] == from
      modifies this`owners
      ensures owners == old(owners)[tokenId := to]
    {
      owners := owners[tokenId := to];
    }
  }

  function CountOf(minted: map<string, nat>, account: string): nat {
    if account in minted then minted[account] else 0
  }

  predicate Saturated(minted: map<string, nat>, signers: seq<string>, n: nat)
    requires n <= |signers|
  {
    forall i :: 0 <= i < n ==> CountOf(minted, signers[i]) >= MINT_QUOTA
  }

  /** Whoever minted anything is a signer whose predecessors are all saturated. */
  ghost predicate MintedInTurn(before: map<string, nat>, after: map<string, nat>, signers: seq<string>) {
    forall a {:trigger CountOf(after, a)} :: CountOf(after, a) > CountOf(before, a)
      ==> exists j :: 0 <= j < |signers| && signers[j] == a && Saturated(after, signers, j)
  }

  /** Counts only rise, and nobody is pushed beyond the quota. */
  ghost predicate WithinQuota(before: map<string, nat>, after: map<string, nat>) {
    forall a {:trigger CountOf(after, a)} :: CountOf(before, a) <= CountOf(after, a)
      && (CountOf(after, a) > CountOf(before, a) ==> CountOf(after, a) <= MINT_QUOTA)
  }

  /** Every token keeps its owner or goes from a signer to the target, and every new one is the target's. */
  ghost predicate OnlyHandedOver(before: map<int, string>, after: map<int, string>, signers: seq<string>, target: string) {
    && before.Keys <= after.Keys
    && (forall t :: t in before ==> after[t] == before[t] || (after[t] == target && before[t] in signers))
    && (forall t :: t in after && t !in before ==> after[t] == target)
  }

  function TotalOf(minted: map<string, nat>, signers: seq<string>): nat {
    if signers == [] then 0 else TotalOf(minted, signers[1..]) + CountOf(minted, signers[0])
  }

  predicate Distinct(signers: seq<string>) {
    forall i, j :: 0 <= i < j < |signers| ==> signers[i] != signers[j]
  }

  function Credited(minted: map<string, nat>, a: string): map<string, nat> {
    minted[a := CountOf(minted, a) + 1]
  }

  lemma {:induction false} CreditTotal(minted: map<string, nat>, signers: seq<string>, a: string)
    requires Distinct(signers)
    ensures TotalOf(Credited(minted, a), signers) == TotalOf(minted, signers) + if a in signers then 1 else 0
  {
    if signers == [] {
    } else {
      CreditTotal(minted, signers[1..], a);
      assert signers == [signers[0]] + signers[1..];
    }
  }

  /** Crediting the current signer, who has quota left, keeps everything said about the counts. */
  lemma CreditKeeps(before: map<string, nat>, minted: map<string, nat>, signers: seq<string>, i: nat)
    requires i < |signers| && Saturated(minted, signers, i) && CountOf(minted, signers[i]) < MINT_QUOTA
    requires WithinQuota(before, minted) && MintedInTurn(before, minted, signers)
    ensures var minted' := Credited(minted, signers[i]);
      Saturated(minted', signers, i) && WithinQuota(before, minted') && MintedInTurn(before, minted', signers)
  {
    hide Saturated;
    var minted' := Credited(minted, signers[i]);
    assert forall a {:trigger CountOf(minted', a)} ::
        CountOf(minted', a) == CountOf(minted, a) + if a == signers[i] then 1 else 0;
    SaturationGrows(minted, minted', signers, i);
    forall a | CountOf(minted', a) > CountOf(before, a)
      ensures exists j :: 0 <= j < |signers| && signers[j] == a && Saturated(minted', signers, j)
    {
      if a != signers[i] {
        assert CountOf(minted, a) > CountOf(before, a);
        var j :| 0 <= j < |signers| && signers[j] == a && Saturated(minted, signers, j);
        SaturationGrows(minted, minted', signers, j);
      }
    }
  }

  lemma SaturationGrows(minted: map<string, nat>, minted': map<string, nat>, signers: seq<string>, n: nat)
    requires n <= |signers| && Saturated(minted, signers, n)
    requires forall a {:trigger CountOf(minted', a)} :: CountOf(minted, a) <= CountOf(minted', a)
    ensures Saturated(minted', signers, n)
  {
  }

  /** What holds of the token contract after the tokens `done` have been dealt with. */
  ghost predicate Progress(owners0: map<int, string>, minted0: map<string, nat>, owners: map<int, string>, minted: map<string, nat>,
                           signers: seq<string>, target: string, done: seq<int>) {
    && (forall t :: t in owners <==> t in owners0 || t in done)
    && OnlyHandedOver(owners0, owners, signers, target)
    && WithinQuota(minted0, minted)
    && MintedInTurn(minted0, minted, signers)
    && (Distinct(signers) ==> TotalOf(minted, signers) - TotalOf(minted0, signers) == |owners| - |owners0|)
  }

  /** A token that a signer owns, or that nobody owns yet, may go to the target. */
  lemma HandOver(owners0: map<int, string>, owners: map<int, string>, signers: seq<string>, target: string, minter: string, t: int)
    requires OnlyHandedOver(owners0, owners, signers, target) && minter in signers
    requires t in owners ==> owners[t] == minter
    ensures OnlyHandedOver(owners0, owners[t := target], signers, target)
    ensures |owners[t := target]| == |owners| + if t in owners then 0 else 1
  {
    assert owners[t := target].Keys == owners.Keys + {t};
  }

  lemma SkipKeeps(owners0: map<int, string>, minted0: map<string, nat>, owners: map<int, string>, minted: map<string, nat>,
                  signers: seq<string>, target: string, ids: seq<int>, n: nat)
    requires n < |ids| && ids[n] in owners && Progress(owners0, minted0, owners, minted, signers, target, ids[..n])
    ensures Progress(owners0, minted0, owners, minted, signers, target, ids[..n + 1])
  {
    hide OnlyHandedOver, WithinQuota, MintedInTurn, Distinct, TotalOf;
    assert ids[..n + 1] == ids[..n] + [ids[n]];
  }

  lemma HandOverKeeps(owners0: map<int, string>, minted0: map<string, nat>, owners: map<int, string>, minted: map<string, nat>,
                      signers: seq<string>, target: string, ids: seq<int>, n: nat, minter: string)
    requires n < |ids| && ids[n] in owners && owners[ids[n]] == minter && minter in signers
    requires Progress(owners0, minted0, owners, minted, signers, target, ids[..n])
    ensures Progress(owners0, minted0, owners[ids[n] := target], minted, signers, target, ids[..n + 1])
  {
    hide OnlyHandedOver, WithinQuota, MintedInTurn, Distinct, TotalOf;
    HandOver(owners0, owners, signers, target, minter, ids[n]);
    assert ids[..n + 1] == ids[..n] + [ids[n]];
  }

  lemma MintKeeps(owners0: map<int, string>, minted0: map<string, nat>, owners: map<int, string>, minted: map<string, nat>,
                  signers: seq<string>, target: string, ids: seq<int>, n: nat, i: nat)
    requires n < |ids| && ids[n] !in owners
    requires i < |signers| && Saturated(minted, signers, i) && CountOf(minted, signers[i]) < MINT_QUOTA
    requires Progress(owners0, minted0, owners, minted, signers, target, ids[..n])
    ensures Saturated(Credited(minted, signers[i]), signers, i)
    ensures Progress(owners0, minted0, owners[ids[n] := signers[i]][ids[n] := target], Credited(minted, signers[i]),
                     signers, target, ids[..n + 1])
  {
    hide OnlyHandedOver, WithinQuota, MintedInTurn, Distinct, TotalOf, Saturated, Credited;
    var t := ids[n];
    HandOver(owners0, owners, signers, target, signers[i], t);
    CreditKeeps(minted0, minted, signers, i);
    if Distinct(signers) {
      CreditTotal(minted, signers, signers[i]);
    }
    assert owners[t := signers[i]][t := target] == owners[t := target];
    assert ids[..n + 1] == ids[..n] + [t];
  }

  // ----- Whose turn it was, and what became of each token -----

  /** `minters[n]` is the signer in turn for the n-th token, the first with quota left, and `counts[n]` what
      everybody had minted before it; only a token that nobody owned yet is minted. */
  ghost predicate InTurn(owners0: map<int, string>, minted0: map<string, nat>, signers: seq<string>, done: seq<int>,
                         minters: seq<nat>, counts: seq<map<string, nat>>)
  {
    && |minters| == |done| && |counts| == |done| + 1 && counts[0] == minted0
    && forall n :: 0 <= n < |done| ==>
         && minters[n] < |signers| && Saturated(counts[n], signers, minters[n])
         && CountOf(counts[n], signers[minters[n]]) < MINT_QUOTA
         && counts[n + 1] == if done[n] in owners0 || done[n] in done[..n] then counts[n] else Credited(counts[n], signers[minters[n]])
  }

  /** Token `t` was dealt with while its first owner was in turn. */
  ghost predicate OwnerInTurn(owner: string, signers: seq<string>, done: seq<int>, minters: seq<nat>, t: int) {
    exists n :: 0 <= n < |done| && n < |minters| && done[n] == t && minters[n] < |signers| && signers[minters[n]] == owner
  }

  /** A token that somebody owned goes to the target exactly when its owner was in turn for it, and a token
      that nobody owned always does. */
  ghost predicate HandedExactly(owners0: map<int, string>, owners: map<int, string>, signers: seq<string>, target: string,
                                done: seq<int>, minters: seq<nat>)
  {
    && (forall t :: t in owners0 ==>
          t in owners && owners[t] == if OwnerInTurn(owners0[t], signers, done, minters, t) then target else owners0[t])
    && (forall t :: t in owners && t !in owners0 ==> owners[t] == target)
  }

  lemma TurnPasses(owners0: map<int, string>, minted0: map<string, nat>, minted: map<string, nat>, signers: seq<string>, ids: seq<int>,
                   n: nat, minters: seq<nat>, counts: seq<map<string, nat>>, i: nat)
    requires n < |ids| && InTurn(owners0, minted0, signers, ids[..n], minters, counts) && counts[n] == minted
    requires i < |signers| && Saturated(minted, signers, i) && CountOf(minted, signers[i]) < MINT_QUOTA
    ensures var minted' := if ids[n] in owners0 || ids[n] in ids[..n] then minted else Credited(minted, signers[i]);
      InTurn(owners0, minted0, signers, ids[..n + 1], minters + [i], counts + [minted'])
  {
    hide Saturated, Credited;
    var done := ids[..n + 1];
    assert done[..n] == ids[..n];
    forall m | 0 <= m < n
      ensures done[m] == ids[..n][m] && done[..m] == ids[..n][..m]
    {
    }
  }

  /** The token at hand goes to the target if nobody owned it or the signer in turn does. */
  lemma HandedOn(owners0: map<int, string>, owners: map<int, string>, signers: seq<string>, target: string, ids: seq<int>, n: nat,
                 minters: seq<nat>, i: nat)
    requires n < |ids| && |minters| == n && i < |signers|
    requires HandedExactly(owners0, owners, signers, target, ids[..n], minters)
    ensures var t := ids[n];
      var owners' := if t !in owners || owners[t] == signers[i] then owners[t := target] else owners;
      HandedExactly(owners0, owners', signers, target, ids[..n + 1], minters + [i])
  {
    hide OwnerInTurn;
    forall t | t in owners0
      ensures OwnerInTurn(owners0[t], signers, ids[..n + 1], minters + [i], t)
        <==> OwnerInTurn(owners0[t], signers, ids[..n], minters, t) || (ids[n] == t && signers[i] == owners0[t])
    {
      OneMoreTurn(owners0[t], signers, ids, n, minters, i, t);
    }
  }

  lemma OneMoreTurn(owner: string, signers: seq<string>, ids: seq<int>, n: nat, minters: seq<nat>, i: nat, t: int)
    requires n < |ids| && |minters| == n && i < |signers|
    ensures OwnerInTurn(owner, signers, ids[..n + 1], minters + [i], t)
      <==> OwnerInTurn(owner, signers, ids[..n], minters, t) || (ids[n] == t && signers[i] == owner)
  {
    var done, more := ids[..n + 1], minters + [i];
    if OwnerInTurn(owner, signers, ids[..n], minters, t) {
      var m :| 0 <= m < n && ids[..n][m] == t && minters[m] < |signers| && signers[minters[m]] == owner;
      assert done[m] == t && more[m] == minters[m];
    }
    if ids[n] == t && signers[i] == owner {
      assert done[n] == t && more[n] == i;
    }
    if OwnerInTurn(owner, signers, done, more, t) {
      var m :| 0 <= m < n + 1 && done[m] == t && more[m] < |signers| && signers[more[m]] == owner;
      if m < n {
        assert ids[..n][m] == t && minters[m] == more[m];
      }
    }
  }

  lemma StartOfRun(owners: map<int, string>, minted: map<string, nat>, signers: seq<string>, target: string, ids: seq<int>)
    ensures Saturated(minted, signers, 0) && Progress(owners, minted, owners, minted, signers, target, ids[..0])
    ensures InTurn(owners, minted, signers, ids[..0], [], [minted])
    ensures HandedExactly(owners, owners, signers, target, ids[..0], [])
  {
  }

  lemma NewTokens(owners0: map<int, string>, minted0: map<string, nat>, owners: map<int, string>, minted: map<string, nat>,
                  signers: seq<string>, target: string, done: seq<int>)
    requires Progress(owners0, minted0, owners, minted, signers, target, done)
    ensures forall t :: t in owners <==> t in owners0 || t in done
  {
  }

  lemma MintedAway(owners: map<int, string>, t: int, minter: string, target: string)
    ensures owners[t := minter][t := target] == owners[t := target]
  {
  }

  /** Mints every token through the signers and hands it to the target, until the tokens or the
      signers run out; `processed` counts the tokens dealt with. Stopping early means that no signer
      has quota left. */
  method MintAll(token: MintableERC721, signers: seq<string>, target: string, tokenIds: seq<int>)
    returns (processed: nat, ghost minters: seq<nat>, ghost counts: seq<map<string, nat>>)
    modifies token
    ensures processed <= |tokenIds|
    ensures Progress(old(token.owners), old(token.minted), token.owners, token.minted, signers, target, tokenIds[..processed])
    ensures InTurn(old(token.owners), old(token.minted), signers, tokenIds[..processed], minters, counts) && counts[processed] == token.minted
    ensures HandedExactly(old(token.owners), token.owners, signers, target, tokenIds[..processed], minters)
    ensures processed < |tokenIds| ==> Saturated(token.minted, signers, |signers|)
  {
    hide Progress, Saturated, InTurn, HandedExactly;
    ghost var owners0, minted0 := token.owners, token.minted;
    var minterIndex := 0;
    var minterAddress := "";
    var minterLimit: int := -1;
    processed := 0;
    minters, counts := [], [token.minted];
    StartOfRun(owners0, minted0, signers, target, tokenIds);
    while processed < |tokenIds|
      invariant processed <= |tokenIds| && minterIndex <= |signers|
      invariant minterLimit >= 0 ==> minterIndex < |signers| && minterAddress == signers[minterIndex]
      invariant minterLimit >= 0 ==> minterLimit == token.MintCounts(minterAddress)
      invariant Saturated(token.minted, signers, minterIndex)
      invariant Progress(owners0, minted0, token.owners, token.minted, signers, target, tokenIds[..processed])
      invariant |minters| == processed && |counts| == processed + 1 && counts[processed] == token.minted
      invariant InTurn(owners0, minted0, signers, tokenIds[..processed], minters, counts)
      invariant HandedExactly(owners0, token.owners, signers, target, tokenIds[..processed], minters)
    {
      var tokenId := tokenIds[processed];
      if minterLimit < 0 || minterLimit >= MINT_QUOTA {
        while minterIndex < |signers|
          invariant minterIndex <= |signers|
          invariant Saturated(token.minted, signers, minterIndex)
          modifies {}
        {
          minterAddress := signers[minterIndex];
          var tmpLimit := token.MintCounts(minterAddress);
          if tmpLimit < MINT_QUOTA {
            minterLimit := tmpLimit;
            break;
          }
          OneMoreSaturated(token.minted, signers, minterIndex);
          minterIndex := minterIndex + 1;
        }
        if minterIndex == |signers| {
          break;
        }
      }
      NewTokens(owners0, minted0, token.owners, token.minted, signers, target, tokenIds[..processed]);
      TurnPasses(owners0, minted0, token.minted, signers, tokenIds, processed, minters, counts, minterIndex);
      HandedOn(owners0, token.owners, signers, target, tokenIds, processed, minters, minterIndex);
      if tokenId in token.owners {
        if token.owners[tokenId] == minterAddress {
          HandOverKeeps(owners0, minted0, token.owners, token.minted, signers, target, tokenIds, processed, minterAddress);
          token.TransferFrom(minterAddress, target, tokenId);
        } else {
          SkipKeeps(owners0, minted0, token.owners, token.minted, signers, target, tokenIds, processed);
        }
      } else {
        MintKeeps(owners0, minted0, token.owners, token.minted, signers, target, tokenIds, processed, minterIndex);
        MintedAway(token.owners, tokenId, minterAddress, target);
        token.Mint(minterAddress, tokenId);
        token.TransferFrom(minterAddress, target, tokenId);
        minterLimit := minterLimit + 1;
      }
      minters, counts := minters + [minterIndex], counts + [token.minted];
      processed := processed + 1;
    }
  }

  lemma OneMoreSaturated(minted: map<string, nat>, signers: seq<string>, i: nat)
    requires i < |signers| && Saturated(minted, signers, i) && CountOf(minted, signers[i]) >= MINT_QUOTA
    ensures Saturated(minted, signers, i + 1)
  {
  }
}

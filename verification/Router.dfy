/** The router's route check and the execution it licenses
    (contracts/terraswap_router/src/contract.rs, contracts/terraswap_router/src/operations.rs). */
module Router {
  import opened Options

  datatype AssetInfo = Token(contractAddr: string) | NativeToken(denom: string)

  /** The display name; it does not tell a token from a native coin. */
  function Name(info: AssetInfo): string {
    match info
    case Token(contractAddr) => contractAddr
    case NativeToken(denom) => denom
  }

  /** Among native coins, and among tokens, the name tells everything; across the two kinds nothing. */
  lemma NameTellsExactly(a: AssetInfo, b: AssetInfo)
    ensures (a.Token? <==> b.Token?) ==> (Name(a) == Name(b) <==> a == b)
    ensures a.Token? && b.NativeToken? ==> (Name(a) == Name(b) <==> a.contractAddr == b.denom)
  {
  }

  datatype SwapOperation =
    | NativeSwap(offerDenom: string, askDenom: string)
    | TerraSwap(offerAssetInfo: AssetInfo, askAssetInfo: AssetInfo)
  {
    function Offer(): AssetInfo {
      match this
      case NativeSwap(offerDenom, _) => NativeToken(offerDenom)
      case TerraSwap(offer, _) => offer
    }

    /** `get_target_asset_info` */
    function Ask(): AssetInfo {
      match this
      case NativeSwap(_, askDenom) => NativeToken(askDenom)
      case TerraSwap(_, ask) => ask
    }
  }

  // ----- the route check -----

  /** Operation k asks for something that no later operation offers. */
  predicate Unconsumed(ops: seq<SwapOperation>, k: nat)
    requires k < |ops|
  {
    forall l :: k < l < |ops| ==> Name(ops[l].Offer()) != Name(ops[k].Ask())
  }

  /** The names asked by some operation and not offered by any later one. */
  function Pending(ops: seq<SwapOperation>): set<string> {
    set k: nat | k < |ops| && Unconsumed(ops, k) :: Name(ops[k].Ask())
  }

  lemma PendingGrows(ops: seq<SwapOperation>, op: SwapOperation)
    ensures Pending(ops + [op]) == Pending(ops) - {Name(op.Offer())} + {Name(op.Ask())}
  {
    var all, n := ops + [op], |ops|;
    assert all[n] == op && Unconsumed(all, n);
    forall k: nat | k < n
      ensures Unconsumed(all, k) <==> Unconsumed(ops, k) && Name(op.Offer()) != Name(ops[k].Ask())
    {
      assert forall l :: k < l < n ==> all[l] == ops[l];
      if Unconsumed(all, k) {
        assert Name(all[n].Offer()) != Name(all[k].Ask());
        forall l | k < l < n ensures Name(ops[l].Offer()) != Name(ops[k].Ask()) {
          assert Name(all[l].Offer()) != Name(all[k].Ask());
        }
      }
    }
    forall a | a in Pending(ops) - {Name(op.Offer())} + {Name(op.Ask())} ensures a in Pending(all) {
      if a != Name(op.Ask()) {
        var k: nat :| k < n && Unconsumed(ops, k) && Name(ops[k].Ask()) == a;
        assert Unconsumed(all, k) && Name(all[k].Ask()) == a;
      }
    }
  }

  /** The last operation's ask is the only output no later operation consumes. */
  predicate Accepted(ops: seq<SwapOperation>) {
    ops != [] &&
    forall k: nat :: k < |ops| && Unconsumed(ops, k) ==> Name(ops[k].Ask()) == Name(ops[|ops| - 1].Ask())
  }

  lemma Singleton(s: set<string>, t: string)
    requires t in s && |s| == 1
    ensures s == {t}
  {
    assert |s - {t}| == 0;
    assert s == (s - {t}) + {t};
  }

  lemma OnePendingIsTarget(ops: seq<SwapOperation>)
    ensures |Pending(ops)| == 1 <==> Accepted(ops)
  {
    if ops == [] {
      assert Pending(ops) == {};
    } else {
      var target := Name(ops[|ops| - 1].Ask());
      assert Unconsumed(ops, |ops| - 1);
      assert target in Pending(ops);
      if |Pending(ops)| == 1 {
        Singleton(Pending(ops), target);
        forall k: nat | k < |ops| && Unconsumed(ops, k) ensures Name(ops[k].Ask()) == target {
          assert Name(ops[k].Ask()) in Pending(ops);
        }
      }
      if Accepted(ops) {
        assert Pending(ops) == {target};
      }
    }
  }

  /** The loop over a map: every operation removes the name it offers and inserts the one it asks. */
  method AssertOperations(ops: seq<SwapOperation>) returns (ok: bool)
    ensures ok <==> Accepted(ops)
  {
    var askAssets: map<string, bool> := map[];
    var i := 0;
    while i < |ops|
      invariant i <= |ops| && askAssets.Keys == Pending(ops[..i])
    {
      var offer, ask := Name(ops[i].Offer()), Name(ops[i].Ask());
      PendingGrows(ops[..i], ops[i]);
      assert ops[..i] + [ops[i]] == ops[..i + 1];
      askAssets := askAssets - {offer};
      askAssets := askAssets[ask := true];
      i := i + 1;
    }
    assert ops[..i] == ops;
    OnePendingIsTarget(ops);
    ok := |askAssets.Keys| == 1;
  }

  // ----- the messages -----

  datatype RouterMessage =
    | ExecuteSwapOperation(operation: SwapOperation, to: Option<string>)
    | AssertMinimumReceive(assetInfo: AssetInfo, prevBalance: nat, minimumReceive: nat, receiver: string)

  method SwapMessages(operations: seq<SwapOperation>, receiver: string) returns (messages: seq<RouterMessage>)
    ensures |messages| == |operations|
    ensures forall k :: 0 <= k < |operations| ==>
      messages[k] == ExecuteSwapOperation(operations[k], if k == |operations| - 1 then Some(receiver) else None)
  {
    var operationIndex := 0;
    messages := [];
    while operationIndex < |operations|
      invariant operationIndex == |messages| <= |operations|
      invariant forall k :: 0 <= k < operationIndex ==>
        messages[k] == ExecuteSwapOperation(operations[k], if k == |operations| - 1 then Some(receiver) else None)
    {
      var operation := operations[operationIndex];
      operationIndex := operationIndex + 1;
      messages := messages + [ExecuteSwapOperation(operation, if operationIndex == |operations| then Some(receiver) else None)];
    }
  }

  /** Only accepted routes run; only the last swap pays out, to the named recipient or else to the
      sender, and the minimum is checked on the one asset the route leaves unconsumed. */
  method ExecuteSwapOperations(sender: string, operations: seq<SwapOperation>, minimumReceive: Option<nat>,
                               to: Option<string>, receiverBalance: nat)
    returns (r: Option<seq<RouterMessage>>)
    ensures r.Some? <==> Accepted(operations)
    ensures r.Some? ==> var n, receiver := |operations|, to.GetOr(sender);
            && |r.value| == n + (if minimumReceive.Some? then 1 else 0)
            && (forall k :: 0 <= k < n ==>
                  r.value[k] == ExecuteSwapOperation(operations[k], if k == n - 1 then Some(receiver) else None))
            && (minimumReceive.Some? ==>
                  && r.value[n].AssertMinimumReceive? && r.value[n].receiver == receiver
                  && r.value[n].minimumReceive == minimumReceive.value && r.value[n].prevBalance == receiverBalance
                  && r.value[n].assetInfo == operations[n - 1].Ask()
                  && Pending(operations) == {Name(r.value[n].assetInfo)})
  {
    var operationsLen := |operations|;
    if operationsLen == 0 {
      return None;
    }
    var ok := AssertOperations(operations);
    if !ok {
      return None;
    }
    var receiver := to.GetOr(sender);
    var target := operations[operationsLen - 1].Ask();
    var messages := SwapMessages(operations, receiver);
    if minimumReceive.Some? {
      TargetIsOnlyPending(operations);
      messages := messages + [AssertMinimumReceive(target, receiverBalance, minimumReceive.value, receiver)];
    }
    return Some(messages);
  }

  lemma TargetIsOnlyPending(ops: seq<SwapOperation>)
    requires Accepted(ops)
    ensures Pending(ops) == {Name(ops[|ops| - 1].Ask())}
  {
    assert Unconsumed(ops, |ops| - 1);
  }

  // ----- what an accepted route leaves in the router -----

  type Holdings = map<AssetInfo, nat>

  function At(h: Holdings, a: AssetInfo): nat {
    if a in h then h[a] else 0
  }

  /** One swap offers the router's whole balance and brings `out`, kept unless it is paid out. */
  function Execute(h: Holdings, op: SwapOperation, out: nat, paidOut: bool): Holdings {
    var emptied := h[op.Offer() := 0];
    if paidOut then emptied else emptied[op.Ask() := At(emptied, op.Ask()) + out]
  }

  /** The router's holdings after the first m operations, whose swaps bring `outs`. */
  function HoldingsAfter(h: Holdings, ops: seq<SwapOperation>, outs: seq<nat>, m: nat): Holdings
    requires m <= |ops| == |outs|
  {
    if m == 0 then h
    else Execute(HoldingsAfter(h, ops, outs, m - 1), ops[m - 1], outs[m - 1], m == |ops|)
  }

  predicate OfferedBetween(ops: seq<SwapOperation>, a: AssetInfo, from: int, to: nat)
    requires to <= |ops|
  {
    exists l: nat :: from < l < to && ops[l].Offer() == a
  }

  /** Asked before the last operation and not offered since. */
  predicate LeftOver(ops: seq<SwapOperation>, a: AssetInfo, m: nat)
    requires m <= |ops|
  {
    exists k: nat :: k < m && k < |ops| - 1 && ops[k].Ask() == a && !OfferedBetween(ops, a, k, m)
  }

  lemma LeftOverStep(ops: seq<SwapOperation>, a: AssetInfo, m: nat)
    requires 0 < m <= |ops|
    ensures LeftOver(ops, a, m) <==>
      (m < |ops| && ops[m - 1].Ask() == a) || (LeftOver(ops, a, m - 1) && ops[m - 1].Offer() != a)
  {
    if LeftOver(ops, a, m) {
      var k: nat :| k < m && k < |ops| - 1 && ops[k].Ask() == a && !OfferedBetween(ops, a, k, m);
      if k < m - 1 {
        assert !OfferedBetween(ops, a, k, m - 1);
        assert ops[m - 1].Offer() != a;
      }
    }
    if m < |ops| && ops[m - 1].Ask() == a {
      assert !OfferedBetween(ops, a, m - 1, m);
    }
    if LeftOver(ops, a, m - 1) && ops[m - 1].Offer() != a {
      var k: nat :| k < m - 1 && k < |ops| - 1 && ops[k].Ask() == a && !OfferedBetween(ops, a, k, m - 1);
      assert !OfferedBetween(ops, a, k, m);
    }
  }

  lemma OfferedStep(ops: seq<SwapOperation>, a: AssetInfo, m: nat)
    requires 0 < m <= |ops|
    ensures OfferedBetween(ops, a, -1, m) <==> OfferedBetween(ops, a, -1, m - 1) || ops[m - 1].Offer() == a
  {
  }

  /** The router holds an asset after m operations exactly when it is left over, or was there from
      the start and never offered. */
  lemma {:induction false} HoldsExactlyLeftOvers(h: Holdings, ops: seq<SwapOperation>, outs: seq<nat>, a: AssetInfo, m: nat)
    requires m <= |ops| == |outs| && forall k :: 0 <= k < |outs| ==> 0 < outs[k]
    ensures 0 < At(HoldingsAfter(h, ops, outs, m), a) <==>
      LeftOver(ops, a, m) || (0 < At(h, a) && !OfferedBetween(ops, a, -1, m))
  {
    if m != 0 {
      HoldsExactlyLeftOvers(h, ops, outs, a, m - 1);
      LeftOverStep(ops, a, m);
      OfferedStep(ops, a, m);
    }
  }

  /** No two different assets of the route share a display name. */
  predicate NamesTell(ops: seq<SwapOperation>) {
    forall k: nat, l: nat :: k < |ops| && l < |ops| ==>
      && (Name(ops[k].Ask()) == Name(ops[l].Offer()) ==> ops[k].Ask() == ops[l].Offer())
      && (Name(ops[k].Ask()) == Name(ops[l].Ask()) ==> ops[k].Ask() == ops[l].Ask())
  }

  lemma LeftOverIsTarget(ops: seq<SwapOperation>, a: AssetInfo)
    requires Accepted(ops) && NamesTell(ops) && LeftOver(ops, a, |ops|)
    ensures a == ops[|ops| - 1].Ask()
  {
    var k: nat :| k < |ops| - 1 && ops[k].Ask() == a && !OfferedBetween(ops, a, k, |ops|);
    assert Unconsumed(ops, k);
  }

  /** An accepted route strands nothing but possibly its own target: of every asset the router did
      not already hold untouched, the end balance is zero, unless it is the target and some earlier
      operation brought it with no later one offering it. That is exactly when it is stranded. */
  lemma AcceptedRouteStrands(h: Holdings, ops: seq<SwapOperation>, outs: seq<nat>, a: AssetInfo)
    requires Accepted(ops) && NamesTell(ops)
    requires |outs| == |ops| && forall k :: 0 <= k < |outs| ==> 0 < outs[k]
    requires At(h, a) == 0 || OfferedBetween(ops, a, -1, |ops|)
    ensures var target := ops[|ops| - 1].Ask();
            0 < At(HoldingsAfter(h, ops, outs, |ops|), a) <==> a == target && LeftOver(ops, target, |ops|)
  {
    HoldsExactlyLeftOvers(h, ops, outs, a, |ops|);
    if LeftOver(ops, a, |ops|) {
      LeftOverIsTarget(ops, a);
    }
  }

  /** The route of the repository's own test (uusd to uluna; ukrw to a token; that token to uluna)
      is accepted and strands the first operation's uluna. */
  lemma AcceptedRouteCanStrand(outs: seq<nat>)
    requires |outs| == 3 && 0 < outs[0] && 0 < outs[1] && 0 < outs[2]
    ensures var luna, token := NativeToken("uluna"), Token("asset0001");
            var ops := [NativeSwap("uusd", "uluna"),
                        TerraSwap(NativeToken("ukrw"), token), TerraSwap(token, luna)];
            var h := map[NativeToken("uusd") := 10, NativeToken("ukrw") := 10];
            Accepted(ops) && At(HoldingsAfter(h, ops, outs, 3), luna) == outs[0]
  {
    var luna, token := NativeToken("uluna"), Token("asset0001");
    var ops := [NativeSwap("uusd", "uluna"), TerraSwap(NativeToken("ukrw"), token), TerraSwap(token, luna)];
    var h: Holdings := map[NativeToken("uusd") := 10, NativeToken("ukrw") := 10];
    assert !Unconsumed(ops, 1) by {
      assert Name(ops[2].Offer()) == Name(ops[1].Ask());
    }
    assert Name(ops[0].Ask()) == Name(ops[2].Ask());
    assert |"uusd"| != |"uluna"| && |"ukrw"| != |"uluna"|;
    assert luna !in h;
    assert HoldingsAfter(h, ops, outs, 0) == h;
    var h1 := HoldingsAfter(h, ops, outs, 1);
    var h2 := HoldingsAfter(h, ops, outs, 2);
    assert h1 == Execute(h, ops[0], outs[0], false);
    assert At(h1, luna) == outs[0];
    assert h2 == Execute(h1, ops[1], outs[1], false);
    assert At(h2, luna) == outs[0];
  }

  /** Accepted is decided operation by operation: a route whose first n operations are accepted stays accepted
      with one more exactly when that one offers their target, or asks for it again. */
  lemma AcceptedGrows(ops: seq<SwapOperation>, op: SwapOperation)
    requires Accepted(ops)
    ensures var target := Name(ops[|ops| - 1].Ask());
            Accepted(ops + [op]) <==> Name(op.Offer()) == target || Name(op.Ask()) == target
  {
    TargetIsOnlyPending(ops);
    PendingGrows(ops, op);
    OnePendingIsTarget(ops + [op]);
    var target, ask := Name(ops[|ops| - 1].Ask()), Name(op.Ask());
    if Name(op.Offer()) == target || ask == target {
      assert Pending(ops + [op]) == {ask};
    } else {
      assert Pending(ops + [op]) == {target, ask};
    }
  }

  /** A single operation is always accepted. */
  lemma OneIsAccepted(op: SwapOperation)
    ensures Accepted([op])
  {
  }

  /** The repository's other routes: four operations ending in a token are accepted when the last one offers
      the target so far, and refused for multiple outputs when it offers something else. */
  lemma MultipleOutputsAreRefused()
    ensures var luna, token0, token1 := NativeToken("uluna"), Token("asset0001"), Token("asset0002");
            && Accepted([NativeSwap("uusd", "uluna"), TerraSwap(NativeToken("ukrw"), token0), TerraSwap(token0, luna),
                         TerraSwap(luna, token1)])
            && !Accepted([NativeSwap("uusd", "ukrw"), TerraSwap(NativeToken("ukrw"), token0),
                          TerraSwap(token0, NativeToken("uaud")), TerraSwap(luna, token1)])
            && !Accepted([])
  {
    var luna, token0, token1 := NativeToken("uluna"), Token("asset0001"), Token("asset0002");
    var first := [NativeSwap("uusd", "uluna"), TerraSwap(NativeToken("ukrw"), token0), TerraSwap(token0, luna)];
    AcceptedRouteCanStrand([1, 1, 1]);
    AcceptedGrows(first, TerraSwap(luna, token1));
    assert first + [TerraSwap(luna, token1)] ==
      [NativeSwap("uusd", "uluna"), TerraSwap(NativeToken("ukrw"), token0), TerraSwap(token0, luna), TerraSwap(luna, token1)];
    var a, b := NativeSwap("uusd", "ukrw"), TerraSwap(NativeToken("ukrw"), token0);
    var c, d := TerraSwap(token0, NativeToken("uaud")), TerraSwap(luna, token1);
    assert [a] + [b] == [a, b] && [a, b] + [c] == [a, b, c] && [a, b, c] + [d] == [a, b, c, d];
    assert |"uluna"| != |"uaud"| && |"asset0002"| != |"uaud"|;
    OneIsAccepted(a);
    AcceptedGrows([a], b);
    AcceptedGrows([a, b], c);
    AcceptedGrows([a, b, c], d);
  }
}

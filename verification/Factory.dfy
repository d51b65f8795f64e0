/** The factory's pair registry: keys, the two-step creation and pagination
    (contracts/terraswap_factory/src/state.rs, contracts/terraswap_factory/src/contract.rs). */
module Factory {
  import opened Options

  type Byte = b: int | 0 <= b < 256
  type Key = seq<Byte>

  datatype AssetInfoRaw = Token(contractAddr: Key) | NativeToken(denom: Key) {
    function AsBytes(): Key {
      match this
      case Token(contractAddr) => contractAddr
      case NativeToken(denom) => denom
    }
  }

  type AssetPair = (AssetInfoRaw, AssetInfoRaw)

  /** The order of byte slices: the first difference decides, a proper prefix comes first. */
  predicate Less(a: Key, b: Key) {
    if b == [] then false
    else if a == [] then true
    else if a[0] != b[0] then a[0] < b[0]
    else Less(a[1..], b[1..])
  }

  function Low(infos: AssetPair): Key {
    if Less(infos.1.AsBytes(), infos.0.AsBytes()) then infos.1.AsBytes() else infos.0.AsBytes()
  }

  function High(infos: AssetPair): Key {
    if Less(infos.1.AsBytes(), infos.0.AsBytes()) then infos.0.AsBytes() else infos.1.AsBytes()
  }

  function PairKey(infos: AssetPair): Key {
    Low(infos) + High(infos)
  }

  // ----- the order -----

  lemma {:induction false} LessTotal(a: Key, b: Key)
    ensures Less(a, b) || a == b || Less(b, a)
    ensures !(Less(a, b) && Less(b, a)) && !Less(a, a)
  {
    if a != [] && b != [] && a[0] == b[0] {
      LessTotal(a[1..], b[1..]);
      if a[1..] == b[1..] {
        assert a == [a[0]] + a[1..] && b == [b[0]] + b[1..];
      }
    }
    if a != [] {
      LessTotal(a[1..], a[1..]);
    }
  }

  lemma {:induction false} LessTransitive(a: Key, b: Key, c: Key)
    requires Less(a, b) && Less(b, c)
    ensures Less(a, c)
  {
    if a != [] && a[0] == b[0] == c[0] {
      LessTransitive(a[1..], b[1..], c[1..]);
    }
  }

  /** The key does not depend on the order the two assets are given in. */
  lemma PairKeyOrderIndependent(x: AssetInfoRaw, y: AssetInfoRaw)
    ensures PairKey((x, y)) == PairKey((y, x))
  {
    LessTotal(x.AsBytes(), y.AsBytes());
  }

  /** Two pairs with the same key are the same two byte strings exactly when their lower ones are
      equally long. */
  lemma SameKeySamePair(p: AssetPair, q: AssetPair)
    requires PairKey(p) == PairKey(q)
    ensures Low(p) == Low(q) && High(p) == High(q) <==> |Low(p)| == |Low(q)|
  {
    if |Low(p)| == |Low(q)| {
      assert Low(p) == PairKey(p)[..|Low(p)|];
      assert High(p) == PairKey(p)[|Low(p)|..];
      assert Low(q) == PairKey(q)[..|Low(q)|];
      assert High(q) == PairKey(q)[|Low(q)|..];
    }
  }

  /** Without equal lengths they need not be: "a" + "bc" and "ab" + "c" share a key. */
  lemma DifferentPairsCanShareKey()
    ensures var p := (NativeToken([97]), NativeToken([98, 99]));
            var q := (NativeToken([97, 98]), NativeToken([99]));
            PairKey(p) == PairKey(q) && Low(p) != Low(q)
  {
  }

  // ----- creation -----

  datatype PairInfo = PairInfo(assetInfos: AssetPair, contractAddr: string, liquidityToken: string)
  datatype TmpPairInfo = TmpPairInfo(pairKey: Key, assetInfos: AssetPair)
  datatype State = State(pairs: map<Key, PairInfo>, tmp: Option<TmpPairInfo>)

  function CreatePair(s: State, infos: AssetPair): Option<State> {
    if PairKey(infos) in s.pairs then None
    else Some(s.(tmp := Some(TmpPairInfo(PairKey(infos), infos))))
  }

  function Reply(s: State, contractAddr: string, liquidityToken: string): Option<State> {
    var tmp :- s.tmp;
    Some(s.(pairs := s.pairs[tmp.pairKey := PairInfo(tmp.assetInfos, contractAddr, liquidityToken)]))
  }

  /** The two entry points, in whatever order they might be called. */
  datatype Call = CallCreate(infos: AssetPair) | CallReply(contractAddr: string, liquidityToken: string)

  function AfterCall(s: State, call: Call): State {
    match call
    case CallCreate(infos) => CreatePair(s, infos).GetOr(s)
    case CallReply(contractAddr, liquidityToken) => Reply(s, contractAddr, liquidityToken).GetOr(s)
  }

  function AfterCalls(s: State, calls: seq<Call>): State
    decreases calls
  {
    if calls == [] then s else AfterCalls(AfterCall(s, calls[0]), calls[1..])
  }

  /** A transaction: creation, the pair's instantiation, and on its success the reply; when the
      instantiation fails the whole transaction is undone. */
  datatype Transaction = Transaction(infos: AssetPair, instantiated: Option<(string, string)>)

  function Commit(s: State, tx: Transaction): Option<State> {
    var created :- CreatePair(s, tx.infos);
    var addresses :- tx.instantiated;
    Reply(created, addresses.0, addresses.1)
  }

  function AfterTransactions(s: State, txs: seq<Transaction>): State
    decreases txs
  {
    if txs == [] then s else AfterTransactions(Commit(s, txs[0]).GetOr(s), txs[1..])
  }

  predicate Keyed(pairs: map<Key, PairInfo>) {
    forall key :: key in pairs ==> key == PairKey(pairs[key].assetInfos)
  }

  predicate Consistent(s: State) {
    Keyed(s.pairs) && (s.tmp.Some? ==> s.tmp.value.pairKey == PairKey(s.tmp.value.assetInfos))
  }

  /** Every stored entry sits under the key of its own assets, after any calls in any order. */
  lemma {:induction false} CallsKeepConsistent(s: State, calls: seq<Call>)
    requires Consistent(s)
    ensures Consistent(AfterCalls(s, calls))
    decreases calls
  {
    if calls != [] {
      CallsKeepConsistent(AfterCall(s, calls[0]), calls[1..]);
    }
  }

  /** A committed transaction adds exactly one entry, findable under both orders of its assets. */
  lemma CommitAddsOne(s: State, tx: Transaction, t: State)
    requires Commit(s, tx) == Some(t)
    ensures PairKey(tx.infos) !in s.pairs && tx.instantiated.Some?
    ensures var entry := PairInfo(tx.infos, tx.instantiated.value.0, tx.instantiated.value.1);
            t.pairs == s.pairs[PairKey(tx.infos) := entry]
            && Lookup(t.pairs, tx.infos) == Lookup(t.pairs, (tx.infos.1, tx.infos.0)) == Some(entry)
  {
    PairKeyOrderIndependent(tx.infos.0, tx.infos.1);
  }

  function Lookup(pairs: map<Key, PairInfo>, infos: AssetPair): Option<PairInfo> {
    if PairKey(infos) in pairs then Some(pairs[PairKey(infos)]) else None
  }

  /** Over any run of transactions an entry, once stored, never changes or disappears. */
  lemma {:induction false} EntriesArePermanent(s: State, txs: seq<Transaction>, key: Key)
    requires key in s.pairs && Consistent(s)
    ensures var t := AfterTransactions(s, txs); key in t.pairs && t.pairs[key] == s.pairs[key] && Consistent(t)
    decreases txs
  {
    if txs != [] {
      var t := Commit(s, txs[0]).GetOr(s);
      if Commit(s, txs[0]).Some? {
        CommitAddsOne(s, txs[0], t);
      }
      EntriesArePermanent(t, txs[1..], key);
    }
  }

  /** A lookup answers with the pair asked for exactly when the two lower parts are equally long. */
  lemma LookupAnswersExactly(pairs: map<Key, PairInfo>, infos: AssetPair, entry: PairInfo)
    requires Keyed(pairs) && Lookup(pairs, infos) == Some(entry)
    ensures Low(entry.assetInfos) == Low(infos) && High(entry.assetInfos) == High(infos)
      <==> |Low(entry.assetInfos)| == |Low(infos)|
  {
    SameKeySamePair(entry.assetInfos, infos);
  }

  /** Once "a" + "bc" exists, "ab" + "c" cannot be created, and asking for it finds the other pair. */
  lemma SharedKeyShutsOut(entry: PairInfo)
    requires entry.assetInfos == (NativeToken([97]), NativeToken([98, 99]))
    ensures var p, q := entry.assetInfos, (NativeToken([97, 98]), NativeToken([99]));
            var t := Commit(State(map[], None), Transaction(p, Some((entry.contractAddr, entry.liquidityToken))));
            && t.Some? && Low(p) != Low(q)
            && CreatePair(t.value, q) == None && Lookup(t.value.pairs, q) == Some(entry)
  {
    DifferentPairsCanShareKey();
  }

  // ----- the contract -----

  class FactoryContract {
    var pairs: map<Key, PairInfo>
    var tmp: Option<TmpPairInfo>

    function Abstract(): State
      reads this
    {
      State(pairs, tmp)
    }

    constructor ()
      ensures Abstract() == State(map[], None) && Consistent(Abstract())
    {
      pairs, tmp := map[], None;
    }

    method ExecuteCreatePair(infos: AssetPair) returns (ok: bool)
      requires Consistent(Abstract())
      modifies this
      ensures Consistent(Abstract())
      ensures ok <==> PairKey(infos) !in old(pairs)
      ensures Abstract() == CreatePair(old(Abstract()), infos).GetOr(old(Abstract()))
    {
      var key := PairKey(infos);
      if key in pairs {
        return false;
      }
      tmp := Some(TmpPairInfo(key, infos));
      ok := true;
    }

    method HandleReply(contractAddr: string, liquidityToken: string) returns (ok: bool)
      requires Consistent(Abstract())
      modifies this
      ensures Consistent(Abstract())
      ensures ok <==> old(tmp).Some?
      ensures Abstract() == Reply(old(Abstract()), contractAddr, liquidityToken).GetOr(old(Abstract()))
    {
      if tmp.None? {
        return false;
      }
      pairs := pairs[tmp.value.pairKey := PairInfo(tmp.value.assetInfos, contractAddr, liquidityToken)];
      ok := true;
    }

    method QueryPair(infos: AssetPair) returns (r: Option<PairInfo>)
      requires Consistent(Abstract())
      ensures r.Some? <==> PairKey(infos) in pairs
      ensures r.Some? ==> PairKey(r.value.assetInfos) == PairKey(infos)
      ensures r == Lookup(pairs, (infos.1, infos.0))
    {
      PairKeyOrderIndependent(infos.0, infos.1);
      var key := PairKey(infos);
      if key in pairs {
        return Some(pairs[key]);
      }
      return None;
    }
  }
}

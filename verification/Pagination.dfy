/** Paging through the factory's pairs (contracts/terraswap_factory/src/state.rs).

    A client asks for the first page, then passes the assets of the last result as `start_after`
    until a page comes back empty. */
module Pagination {
  import opened Options
  import opened Arithmetic
  import opened Factory

  const MAX_LIMIT: nat := 30
  const DEFAULT_LIMIT: nat := 10

  // ----- keys in storage order -----

  ghost predicate Ascending(ks: seq<Key>) {
    forall i, j :: 0 <= i < j < |ks| ==> Less(ks[i], ks[j])
  }

  lemma {:induction false} LeastExists(s: set<Key>) returns (least: Key)
    requires s != {}
    ensures least in s && forall k :: k in s && k != least ==> Less(least, k)
    decreases |s|
  {
    var x :| x in s;
    if s == {x} {
      least := x;
    } else {
      var y := LeastExists(s - {x});
      LessTotal(x, y);
      if Less(x, y) {
        least := x;
        forall k | k in s && k != x ensures Less(x, k) {
          if k != y { LessTransitive(x, y, k); }
        }
      } else {
        least := y;
      }
    }
  }

  /** ks visits exactly the keys of s, in order. */
  ghost predicate Lists(ks: seq<Key>, s: set<Key>) {
    Ascending(ks) && forall k :: k in ks <==> k in s
  }

  lemma {:induction false} ListingExists(s: set<Key>) returns (ks: seq<Key>)
    ensures Lists(ks, s)
    decreases |s|
  {
    if s == {} {
      ks := [];
    } else {
      var least := LeastExists(s);
      var rest := ListingExists(s - {least});
      ks := [least] + rest;
      forall i, j | 0 <= i < j < |ks| ensures Less(ks[i], ks[j]) {
        assert ks[j] == rest[j - 1];
        assert rest[j - 1] in rest;
      }
      forall k ensures k in ks <==> k in s {
        assert k in ks <==> k == least || k in rest;
      }
    }
  }

  /** The keys of a set in the order a storage range visits them. */
  ghost function SortedKeys(s: set<Key>): seq<Key> {
    assert exists ks :: Lists(ks, s) by {
      var ks := ListingExists(s);
    }
    var ks :| Lists(ks, s);
    ks
  }

  lemma SortedKeysList(s: set<Key>)
    ensures Lists(SortedKeys(s), s)
  {
    var ks := ListingExists(s);
  }

  /** Where an exclusive range start lands: past every key not above it. */
  function Seek(ks: seq<Key>, start: Key): (r: nat)
    ensures r <= |ks|
  {
    if ks == [] || Less(start, ks[0]) then 0 else 1 + Seek(ks[1..], start)
  }

  lemma {:induction false} SeekSplits(ks: seq<Key>, start: Key)
    ensures var r := Seek(ks, start);
            && (forall k :: 0 <= k < r ==> !Less(start, ks[k]))
            && (r < |ks| ==> Less(start, ks[r]))
  {
    if ks != [] && !Less(start, ks[0]) {
      SeekSplits(ks[1..], start);
    }
  }

  /** On ascending keys the range holds exactly the keys above its start. */
  lemma SeekIsFilter(ks: seq<Key>, start: Key, k: nat)
    requires Ascending(ks) && k < |ks|
    ensures Less(start, ks[k]) <==> Seek(ks, start) <= k
  {
    var r := Seek(ks, start);
    SeekSplits(ks, start);
    if k < r {
      assert !Less(start, ks[k]);
    } else if r < k {
      assert Less(ks[r], ks[k]);
      LessTransitive(start, ks[r], ks[k]);
    }
  }

  // ----- the shadow of the appended byte -----

  /** `calc_range_start` appends one byte of value 1 to the key. */
  function RangeStart(key: Key): Key {
    key + [1]
  }

  lemma {:induction false} KeyBelowItsStart(key: Key)
    ensures Less(key, RangeStart(key))
  {
    if key != [] {
      KeyBelowItsStart(key[1..]);
      assert RangeStart(key)[1..] == RangeStart(key[1..]);
    }
  }

  /** The keys a page starting after `key` skips: the extensions of `key` by a zero byte and more,
      and the range start itself. */
  lemma {:induction false} SkippedKeys(key: Key, other: Key)
    ensures Less(key, other) && !Less(RangeStart(key), other) <==>
      key <= other && |key| < |other| && (other[|key|] == 0 || other == RangeStart(key))
  {
    if key == [] {
      if other != [] {
        assert Less(RangeStart(key), other) <==> 1 < other[0] || (other[0] == 1 && Less([], other[1..]));
        assert other == [other[0]] + other[1..];
      }
    } else if other != [] && key[0] == other[0] {
      SkippedKeys(key[1..], other[1..]);
      assert RangeStart(key)[1..] == RangeStart(key[1..]);
      assert key == [key[0]] + key[1..] && other == [other[0]] + other[1..];
    }
  }

  /** No stored key is skipped by the range start made from another. */
  predicate NoneSkipped(keys: set<Key>) {
    forall k, l :: k in keys && l in keys && Less(k, l) ==> Less(RangeStart(k), l)
  }

  /** In particular when no stored key properly extends another. */
  lemma PrefixFreeSkipsNone(keys: set<Key>)
    requires forall k, l :: k in keys && l in keys && k != l ==> !(k <= l)
    ensures NoneSkipped(keys)
  {
    forall k, l | k in keys && l in keys && Less(k, l) ensures Less(RangeStart(k), l) {
      LessTotal(k, l);
      SkippedKeys(k, l);
    }
  }

  // ----- walking in jumps -----

  predicate Forward(jumps: seq<nat>) {
    forall k :: 0 <= k < |jumps| ==> k < jumps[k] <= |jumps|
  }

  function Page<T>(all: seq<T>, i: nat, limit: nat): (r: seq<T>)
    requires i <= |all|
    ensures |r| == Min(i + limit, |all|) - i
    ensures 0 < |r| ==> r[|r| - 1] == all[i + |r| - 1]
  {
    all[i..Min(i + limit, |all|)]
  }

  /** What is collected from position i on, in pages of `limit`, when the page ending on position k is
      followed by the one starting at jumps[k]. */
  function Walk<T>(xs: seq<T>, jumps: seq<nat>, i: nat, limit: nat): seq<T>
    requires Forward(jumps) && |jumps| == |xs| && i <= |xs| && 0 < limit
    decreases |xs| - i
  {
    if i == |xs| then [] else
      var page := Page(xs, i, limit);
      page + Walk(xs, jumps, jumps[i + |page| - 1], limit)
  }

  lemma Glue<T>(xs: seq<T>, i: nat, end: nat)
    requires i <= end <= |xs|
    ensures xs[i..end] + xs[end..] == xs[i..]
  {
  }

  lemma NextBoundary(i: nat, r: nat, limit: nat)
    requires 0 < limit && i % limit == 0 && r <= limit
    ensures (i + r) % limit == if r == limit then 0 else r
  {
    var q := i / limit;
    if r == limit {
      assert (q + 1) * limit == q * limit + limit;
      QuotientUnique(i + r, limit, q + 1, 0);
    } else {
      QuotientUnique(i + r, limit, q, r);
    }
  }

  /** The positions a client that misses nothing ends its pages on. */
  predicate PageEnd(k: nat, limit: nat)
    requires 0 < limit
  {
    (k + 1) % limit == 0
  }

  /** No page end from i on is followed by a jump over something. */
  predicate EndsGoOn(jumps: seq<nat>, i: nat, limit: nat)
    requires 0 < limit
  {
    forall k :: i <= k < |jumps| && PageEnd(k, limit) ==> jumps[k] == k + 1
  }

  lemma EndsGoOnStep(jumps: seq<nat>, i: nat, limit: nat)
    requires Forward(jumps) && 0 < limit && i % limit == 0 && i + limit <= |jumps|
    ensures EndsGoOn(jumps, i, limit) <==> jumps[i + limit - 1] == i + limit && EndsGoOn(jumps, i + limit, limit)
  {
    NextBoundary(i, limit, limit);
    assert PageEnd(i + limit - 1, limit);
    forall k | i <= k < i + limit - 1 ensures !PageEnd(k, limit) {
      NextBoundary(i, k + 1 - i, limit);
    }
  }

  lemma LastPage(jumps: seq<nat>, i: nat, limit: nat)
    requires Forward(jumps) && 0 < limit && i % limit == 0 && i < |jumps| < i + limit
    ensures EndsGoOn(jumps, i, limit)
  {
    forall k | i <= k < |jumps| ensures !PageEnd(k, limit) {
      NextBoundary(i, k + 1 - i, limit);
    }
  }

  lemma FullPage<T>(xs: seq<T>, jumps: seq<nat>, i: nat, limit: nat)
    requires Forward(jumps) && |jumps| == |xs| && 0 < limit && i + limit <= |xs|
    ensures var next := jumps[i + limit - 1];
            && Walk(xs, jumps, i, limit) == xs[i..i + limit] + Walk(xs, jumps, next, limit)
            && (i + limit < next ==> |Walk(xs, jumps, i, limit)| < |xs| - i)
            && (i + limit == next ==>
                  (Walk(xs, jumps, i, limit) == xs[i..] <==> Walk(xs, jumps, next, limit) == xs[next..]))
  {
    var next := jumps[i + limit - 1];
    WalkIsNoLonger(xs, jumps, next, limit);
    if next == i + limit {
      Glue(xs, i, next);
      PrefixCancels(xs[i..next], Walk(xs, jumps, next, limit), xs[next..]);
    }
  }

  /** From a page boundary on, the walk misses nothing exactly when no page end jumps over something. */
  lemma {:induction false} WalkCompleteExactly<T>(xs: seq<T>, jumps: seq<nat>, i: nat, limit: nat)
    requires Forward(jumps) && |jumps| == |xs| && i <= |xs| && 0 < limit && i % limit == 0
    ensures Walk(xs, jumps, i, limit) == xs[i..] <==> EndsGoOn(jumps, i, limit)
    decreases |xs| - i
  {
    if i + limit <= |xs| {
      EndsGoOnStep(jumps, i, limit);
      FullPage(xs, jumps, i, limit);
      if jumps[i + limit - 1] == i + limit {
        NextBoundary(i, limit, limit);
        WalkCompleteExactly(xs, jumps, i + limit, limit);
      }
    } else if i < |xs| {
      LastPage(jumps, i, limit);
      assert jumps[|xs| - 1] == |xs|;
    }
  }

  lemma PrefixCancels<T>(p: seq<T>, a: seq<T>, b: seq<T>)
    ensures p + a == p + b <==> a == b
  {
    assert (p + a)[|p|..] == a && (p + b)[|p|..] == b;
  }

  lemma {:induction false} WalkIsNoLonger<T>(xs: seq<T>, jumps: seq<nat>, i: nat, limit: nat)
    requires Forward(jumps) && |jumps| == |xs| && i <= |xs| && 0 < limit
    ensures |Walk(xs, jumps, i, limit)| <= |xs| - i
    decreases |xs| - i
  {
    if i < |xs| {
      WalkIsNoLonger(xs, jumps, jumps[i + |Page(xs, i, limit)| - 1], limit);
    }
  }

  lemma {:induction false} JumpMisses<T>(xs: seq<T>, jumps: seq<nat>, i: nat, k: nat)
    requires Forward(jumps) && |jumps| == |xs| && i <= k < |xs| && k + 1 < jumps[k]
    ensures |Walk(xs, jumps, i, 1)| < |xs| - i
    decreases k - i
  {
    if jumps[i] <= k {
      JumpMisses(xs, jumps, jumps[i], k);
    } else {
      WalkIsNoLonger(xs, jumps, jumps[i], 1);
    }
  }

  // ----- the jumps of the registry -----

  lemma SeekPasses(ks: seq<Key>, i: nat)
    requires Ascending(ks) && i < |ks|
    ensures i < Seek(ks, RangeStart(ks[i]))
  {
    KeyBelowItsStart(ks[i]);
    LessTotal(RangeStart(ks[i]), ks[i]);
    SeekIsFilter(ks, RangeStart(ks[i]), i);
  }

  /** Where the page after the one ending on position i starts. */
  function Jump(ks: seq<Key>, i: nat): (r: nat)
    requires i < |ks|
    ensures r <= |ks|
  {
    Seek(ks, RangeStart(ks[i]))
  }

  lemma JumpIsNext(ks: seq<Key>, i: nat)
    requires Ascending(ks) && i + 1 < |ks|
    ensures Jump(ks, i) == i + 1 <==> Less(RangeStart(ks[i]), ks[i + 1])
  {
    SeekPasses(ks, i);
    SeekIsFilter(ks, RangeStart(ks[i]), i + 1);
  }

  lemma NoneSkippedJumpsNext(ks: seq<Key>, keys: set<Key>, i: nat)
    requires Lists(ks, keys) && NoneSkipped(keys) && i < |ks|
    ensures Jump(ks, i) == i + 1
  {
    SeekPasses(ks, i);
    if i + 1 < |ks| {
      assert ks[i] in ks && ks[i + 1] in ks;
      JumpIsNext(ks, i);
    }
  }

  lemma SkippedJumpsFurther(ks: seq<Key>, keys: set<Key>) returns (k: nat)
    requires Lists(ks, keys) && !NoneSkipped(keys)
    ensures k < |ks| && k + 1 < Jump(ks, k)
  {
    var a, b :| a in keys && b in keys && Less(a, b) && !Less(RangeStart(a), b);
    assert a in ks && b in ks;
    k :| 0 <= k < |ks| && ks[k] == a;
    var l :| 0 <= l < |ks| && ks[l] == b;
    LessTotal(a, b);
    assert k < l;
    SeekIsFilter(ks, RangeStart(a), l);
  }

  // ----- the query and its client -----

  function PageLimit(limit: Option<nat>): nat {
    Min(limit.GetOr(DEFAULT_LIMIT), MAX_LIMIT)
  }

  /** All stored pairs in key order. */
  ghost function AllPairs(pairs: map<Key, PairInfo>): (r: seq<PairInfo>)
    ensures |r| == |SortedKeys(pairs.Keys)|
    ensures forall k :: 0 <= k < |r| ==> SortedKeys(pairs.Keys)[k] in pairs && r[k] == pairs[SortedKeys(pairs.Keys)[k]]
  {
    var ks := SortedKeys(pairs.Keys);
    SortedKeysList(pairs.Keys);
    assert forall k :: 0 <= k < |ks| ==> ks[k] in ks;
    seq(|ks|, k requires 0 <= k < |ks| => pairs[ks[k]])
  }

  /** For every stored position, where the page after it starts. */
  ghost function Jumps(pairs: map<Key, PairInfo>): (r: seq<nat>)
    ensures Forward(r) && |r| == |AllPairs(pairs)|
    ensures forall k :: 0 <= k < |r| ==> r[k] == Jump(SortedKeys(pairs.Keys), k)
  {
    var ks := SortedKeys(pairs.Keys);
    SortedKeysList(pairs.Keys);
    assert forall k :: 0 <= k < |ks| ==> k < Jump(ks, k) by {
      forall k | 0 <= k < |ks| ensures k < Jump(ks, k) { SeekPasses(ks, k); }
    }
    seq(|ks|, k requires 0 <= k < |ks| => Jump(ks, k))
  }

  /** The position a page starts from. */
  ghost function Start(pairs: map<Key, PairInfo>, startAfter: Option<AssetPair>): (i: nat)
    ensures i <= |AllPairs(pairs)|
    ensures startAfter.None? ==> i == 0
  {
    match startAfter
    case None => 0
    case Some(infos) => Seek(SortedKeys(pairs.Keys), RangeStart(PairKey(infos)))
  }

  /** `read_pairs` */
  ghost function ReadPairs(pairs: map<Key, PairInfo>, startAfter: Option<AssetPair>, limit: Option<nat>): seq<PairInfo> {
    Page(AllPairs(pairs), Start(pairs, startAfter), PageLimit(limit))
  }

  /** Asking for what follows the assets of a stored pair resumes at its jump. */
  ghost predicate Resumes(pairs: map<Key, PairInfo>) {
    forall k :: 0 <= k < |AllPairs(pairs)| ==> Start(pairs, Some(AllPairs(pairs)[k].assetInfos)) == Jumps(pairs)[k]
  }

  lemma KeyedResumes(pairs: map<Key, PairInfo>)
    requires Keyed(pairs)
    ensures Resumes(pairs)
  {
  }

  lemma PageResumes(pairs: map<Key, PairInfo>, i: nat, limit: nat)
    requires Resumes(pairs) && i < |AllPairs(pairs)| && 0 < limit
    ensures var page := Page(AllPairs(pairs), i, limit);
            var last := i + |page| - 1;
            && i <= last < Jumps(pairs)[last] <= |AllPairs(pairs)|
            && Start(pairs, Some(page[|page| - 1].assetInfos)) == Jumps(pairs)[last]
  {
    var last := i + |Page(AllPairs(pairs), i, limit)| - 1;
    assert Start(pairs, Some(AllPairs(pairs)[last].assetInfos)) == Jumps(pairs)[last];
  }

  /** The client's loop over the query. */
  ghost function Collect(pairs: map<Key, PairInfo>, startAfter: Option<AssetPair>, limit: Option<nat>): seq<PairInfo>
    requires Resumes(pairs)
    decreases |AllPairs(pairs)| - Start(pairs, startAfter)
  {
    var page := ReadPairs(pairs, startAfter, limit);
    if |page| == 0 then [] else
      PageResumes(pairs, Start(pairs, startAfter), PageLimit(limit));
      page + Collect(pairs, Some(page[|page| - 1].assetInfos), limit)
  }

  lemma CollectUnfolds(pairs: map<Key, PairInfo>, startAfter: Option<AssetPair>, limit: Option<nat>)
    requires Resumes(pairs)
    ensures var page := ReadPairs(pairs, startAfter, limit);
            Collect(pairs, startAfter, limit) ==
            if |page| == 0 then [] else page + Collect(pairs, Some(page[|page| - 1].assetInfos), limit)
  {
  }

  lemma WalkUnfolds<T>(xs: seq<T>, jumps: seq<nat>, i: nat, limit: nat, page: seq<T>)
    requires Forward(jumps) && |jumps| == |xs| && i <= |xs| && 0 < limit && page == Page(xs, i, limit)
    ensures Walk(xs, jumps, i, limit) ==
      if |page| == 0 then [] else page + Walk(xs, jumps, jumps[i + |page| - 1], limit)
  {
  }

  ghost predicate Matches(pairs: map<Key, PairInfo>, startAfter: Option<AssetPair>, limit: Option<nat>, i: nat)
    requires Resumes(pairs) && 0 < PageLimit(limit) && i <= |AllPairs(pairs)|
  {
    Collect(pairs, startAfter, limit) == Walk(AllPairs(pairs), Jumps(pairs), i, PageLimit(limit))
  }

  lemma MatchesBackward(pairs: map<Key, PairInfo>, startAfter: Option<AssetPair>, limit: Option<nat>, i: nat, page: seq<PairInfo>)
    requires Resumes(pairs) && 0 < PageLimit(limit) && i == Start(pairs, startAfter)
    requires page == Page(AllPairs(pairs), i, PageLimit(limit))
    requires 0 < |page| ==> Matches(pairs, Some(page[|page| - 1].assetInfos), limit, Jumps(pairs)[i + |page| - 1])
    ensures Matches(pairs, startAfter, limit, i)
  {
    CollectUnfolds(pairs, startAfter, limit);
    WalkUnfolds(AllPairs(pairs), Jumps(pairs), i, PageLimit(limit), page);
  }

  lemma {:induction false} CollectIsWalk(pairs: map<Key, PairInfo>, startAfter: Option<AssetPair>, limit: Option<nat>, i: nat)
    requires Resumes(pairs) && 0 < PageLimit(limit) && i == Start(pairs, startAfter)
    ensures Matches(pairs, startAfter, limit, i)
    decreases |AllPairs(pairs)| - i
  {
    var page := Page(AllPairs(pairs), i, PageLimit(limit));
    if 0 < |page| {
      var infos, next := NextPage(pairs, i, PageLimit(limit), page);
      CollectIsWalk(pairs, Some(infos), limit, next);
    }
    MatchesBackward(pairs, startAfter, limit, i, page);
  }

  lemma NextPage(pairs: map<Key, PairInfo>, i: nat, limit: nat, page: seq<PairInfo>) returns (infos: AssetPair, next: nat)
    requires Resumes(pairs) && i < |AllPairs(pairs)| && 0 < limit && page == Page(AllPairs(pairs), i, limit) && 0 < |page|
    ensures infos == page[|page| - 1].assetInfos && next == Jumps(pairs)[i + |page| - 1]
    ensures i < next <= |AllPairs(pairs)| && Start(pairs, Some(infos)) == next
  {
    PageResumes(pairs, i, limit);
    infos, next := page[|page| - 1].assetInfos, Jumps(pairs)[i + |page| - 1];
  }

  lemma PagingByOneMisses(pairs: map<Key, PairInfo>)
    requires Keyed(pairs) && !NoneSkipped(pairs.Keys)
    ensures Resumes(pairs) && Collect(pairs, None, Some(1)) != AllPairs(pairs)
  {
    SortedKeysList(pairs.Keys);
    var k := SkippedJumpsFurther(SortedKeys(pairs.Keys), pairs.Keys);
    KeyedResumes(pairs);
    CollectIsWalk(pairs, None, Some(1), 0);
    JumpMisses(AllPairs(pairs), Jumps(pairs), 0, k);
  }

  /** For a registry whose entries sit under their own keys, paging with any limit of at least one
      lists every pair exactly once in key order, exactly when no stored key is skipped by another's
      range start. */
  lemma PagingCompleteExactly(pairs: map<Key, PairInfo>)
    requires Keyed(pairs)
    ensures Resumes(pairs)
    ensures (forall limit :: 0 < PageLimit(limit) ==> Collect(pairs, None, limit) == AllPairs(pairs))
      <==> NoneSkipped(pairs.Keys)
  {
    var ks, all := SortedKeys(pairs.Keys), AllPairs(pairs);
    SortedKeysList(pairs.Keys);
    KeyedResumes(pairs);
    if NoneSkipped(pairs.Keys) {
      forall k | 0 <= k < |ks| ensures Jumps(pairs)[k] == k + 1 {
        NoneSkippedJumpsNext(ks, pairs.Keys, k);
      }
      forall limit | 0 < PageLimit(limit) ensures Collect(pairs, None, limit) == all {
        CollectIsWalk(pairs, None, limit, 0);
        WalkCompleteExactly(all, Jumps(pairs), 0, PageLimit(limit));
      }
    } else {
      PagingByOneMisses(pairs);
      assert PageLimit(Some(1)) == 1;
    }
  }

  /** No key directly after the end of a full page is skipped by the range start made from that end. */
  ghost predicate PageEndsReach(ks: seq<Key>, limit: nat)
    requires 0 < limit
  {
    forall k :: 0 <= k < |ks| - 1 && PageEnd(k, limit) ==> Less(RangeStart(ks[k]), ks[k + 1])
  }

  lemma JumpsReach(pairs: map<Key, PairInfo>, k: nat)
    requires k < |AllPairs(pairs)|
    ensures Jumps(pairs)[k] == k + 1 <==>
      k + 1 == |SortedKeys(pairs.Keys)| || Less(RangeStart(SortedKeys(pairs.Keys)[k]), SortedKeys(pairs.Keys)[k + 1])
  {
    SortedKeysList(pairs.Keys);
    if k + 1 < |AllPairs(pairs)| {
      JumpIsNext(SortedKeys(pairs.Keys), k);
    }
  }

  lemma EndsReach(pairs: map<Key, PairInfo>, limit: nat)
    requires 0 < limit
    ensures EndsGoOn(Jumps(pairs), 0, limit) <==> PageEndsReach(SortedKeys(pairs.Keys), limit)
  {
    var ks, jumps := SortedKeys(pairs.Keys), Jumps(pairs);
    if EndsGoOn(jumps, 0, limit) {
      forall k | 0 <= k < |ks| - 1 && PageEnd(k, limit) ensures Less(RangeStart(ks[k]), ks[k + 1]) {
        JumpsReach(pairs, k);
      }
    }
    if PageEndsReach(ks, limit) {
      forall k | 0 <= k < |jumps| && PageEnd(k, limit) ensures jumps[k] == k + 1 {
        JumpsReach(pairs, k);
      }
    }
  }

  /** The same for one limit. */
  lemma PagingCompleteAt(pairs: map<Key, PairInfo>, limit: Option<nat>)
    requires Keyed(pairs) && 0 < PageLimit(limit)
    ensures Resumes(pairs)
    ensures Collect(pairs, None, limit) == AllPairs(pairs) <==> PageEndsReach(SortedKeys(pairs.Keys), PageLimit(limit))
  {
    KeyedResumes(pairs);
    CollectIsWalk(pairs, None, limit, 0);
    WalkCompleteExactly(AllPairs(pairs), Jumps(pairs), 0, PageLimit(limit));
    EndsReach(pairs, PageLimit(limit));
  }

  /** How long a page is: ten pairs by default, never above thirty, as asked for below that, and fewer
      only when the registry ends. */
  lemma PageLengths(pairs: map<Key, PairInfo>, startAfter: Option<AssetPair>, limit: Option<nat>)
    ensures var rest, length := |AllPairs(pairs)| - Start(pairs, startAfter), |ReadPairs(pairs, startAfter, limit)|;
            && (limit == None ==> length == if rest <= 10 then rest else 10)
            && (limit.Some? && limit.value <= 30 ==> length == if rest <= limit.value then rest else limit.value)
            && (limit.Some? && 30 < limit.value ==> length == if rest <= 30 then rest else 30)
  {
  }

  // ----- a registry that skips -----

  function TwoPairs(): (r: seq<Transaction>)
    ensures |r| == 2
  {
    [Transaction((NativeToken([97]), NativeToken([98])), Some(("pair0", "lp0"))),
     Transaction((NativeToken([97]), Token([98, 1])), Some(("pair1", "lp1")))]
  }

  lemma TwoPairsStored(t: State)
    requires t == AfterTransactions(State(map[], None), TwoPairs())
    ensures t.pairs == map[[97, 98] := PairInfo(TwoPairs()[0].infos, "pair0", "lp0"),
                           [97, 98, 1] := PairInfo(TwoPairs()[1].infos, "pair1", "lp1")]
  {
    var s1 := AfterTransactions(State(map[], None), TwoPairs()[..1]);
    TwoKeys();
    var first := Commit(State(map[], None), TwoPairs()[0]).value;
    assert AfterTransactions(first, TwoPairs()[1..]) == t;
    var second := Commit(first, TwoPairs()[1]).value;
    assert t == second;
  }

  lemma PageAfterFirstIsEmpty(pairs: map<Key, PairInfo>, infos: AssetPair, first: Key, second: Key, limit: Option<nat>)
    requires PairKey(infos) == first && pairs.Keys == {first, second} && second == RangeStart(first)
    ensures ReadPairs(pairs, Some(infos), limit) == []
  {
    var ks := SortedKeys(pairs.Keys);
    SortedKeysList(pairs.Keys);
    var r := Seek(ks, second);
    SeekSplits(ks, second);
    if r < |ks| {
      assert ks[r] in ks;
      LessTotal(second, second);
      KeyBelowItsStart(first);
      LessTotal(first, second);
      assert false;
    }
  }

  lemma SecondIsSkipped(keys: set<Key>, first: Key, second: Key)
    requires first in keys && second in keys && second == RangeStart(first)
    ensures !NoneSkipped(keys)
  {
    KeyBelowItsStart(first);
    LessTotal(second, second);
  }

  /** A registry the factory reaches in two creations, "a" + "b" and "a" + "b\u{1}": the page after the
      first pair is empty at every limit, so paging by one never shows the second. */
  lemma PagingCanSkip(t: State, limit: Option<nat>)
    requires t == AfterTransactions(State(map[], None), TwoPairs())
    ensures |t.pairs| == 2 && PairKey(TwoPairs()[1].infos) in t.pairs
    ensures !NoneSkipped(t.pairs.Keys)
    ensures ReadPairs(t.pairs, Some(TwoPairs()[0].infos), limit) == []
    ensures Resumes(t.pairs) && Collect(t.pairs, None, Some(1)) != AllPairs(t.pairs)
  {
    var first, second: Key := [97, 98], [97, 98, 1];
    TwoPairsStored(t);
    TwoKeys();
    SecondIsSkipped(t.pairs.Keys, first, second);
    PageAfterFirstIsEmpty(t.pairs, TwoPairs()[0].infos, first, second, limit);
    PagingByOneMisses(t.pairs);
  }

  lemma TwoKeys()
    ensures PairKey(TwoPairs()[0].infos) == [97, 98] && PairKey(TwoPairs()[1].infos) == [97, 98, 1]
  {
  }
}

/** Tracking and selecting storage peers (discovery.rs). */
module Peers {
  import opened Basics

  datatype PeerInfo = PeerInfo(
    peerId: string,
    storageOffered: nat,
    storageAvailable: nat,
    reliability: real,
    latencyMs: nat,
    lastSeen: int)

  const MIN_RELIABILITY: real := 0.3
  const MAX_AGE_SECONDS: int := 3600

  /** The known peers, and when each blacklisting ends. */
  datatype Book = Book(peers: map<string, PeerInfo>, blacklist: map<string, int>)

  function Score(p: PeerInfo): real {
    var latencyScore := 1.0 - Min(p.latencyMs, 1000) as real / 1000.0;
    var availability := if p.storageOffered > 0 then p.storageAvailable as real / p.storageOffered as real else 0.0;
    p.reliability * 0.4 + latencyScore * 0.3 + availability * 0.3
  }

  predicate Stale(p: PeerInfo, now: int) { now - p.lastSeen > MAX_AGE_SECONDS }

  predicate Blacklisted(b: Book, peerId: string, now: int) { peerId in b.blacklist && now < b.blacklist[peerId] }

  predicate Healthy(b: Book, p: PeerInfo, now: int) {
    !Blacklisted(b, p.peerId, now) && p.reliability >= MIN_RELIABILITY && !Stale(p, now)
  }

  predicate Eligible(b: Book, p: PeerInfo, requiredBytes: nat, now: int) {
    Healthy(b, p, now) && p.storageAvailable >= requiredBytes
  }

  /** The healthy peers. */
  function HealthyPeers(b: Book, now: int): map<string, PeerInfo> {
    map id | id in b.peers && Healthy(b, b.peers[id], now) :: b.peers[id]
  }

  /** The peers among which storage peers are selected. */
  function Candidates(b: Book, requiredBytes: nat, now: int): map<string, PeerInfo> {
    map id | id in b.peers && Eligible(b, b.peers[id], requiredBytes, now) :: b.peers[id]
  }

  ghost function TotalAvailable(peers: map<string, PeerInfo>): nat
    decreases |peers|
  {
    if peers == map[] then 0
    else
      var id :| id in peers;
      peers[id].storageAvailable + TotalAvailable(peers - {id})
  }

  lemma {:induction false} TotalRemove(peers: map<string, PeerInfo>, id: string)
    requires id in peers
    ensures TotalAvailable(peers) == peers[id].storageAvailable + TotalAvailable(peers - {id})
    decreases |peers|
  {
    var picked :| picked in peers
               && TotalAvailable(peers) == peers[picked].storageAvailable + TotalAvailable(peers - {picked});
    if picked != id {
      TotalRemove(peers - {picked}, id);
      TotalRemove(peers - {id}, picked);
      assert peers - {picked} - {id} == peers - {id} - {picked};
    }
  }

  /**
   A score is 0.4 times the reliability, plus 0.3 times how far the latency is below a second, plus
   0.3 times the share of the offered storage that is available; no offer shares nothing.
   */
  lemma ScoreExact(p: PeerInfo)
    ensures p.latencyMs >= 1000 && p.storageOffered == 0 ==> Score(p) == 0.4 * p.reliability
    ensures p.latencyMs < 1000 && p.storageOffered == 0 ==>
              Score(p) == 0.4 * p.reliability + 0.3 * (1000 - p.latencyMs) as real / 1000.0
    ensures p.storageOffered > 0 ==>
              Score(p) == Score(p.(storageOffered := 0)) + 0.3 * (p.storageAvailable as real / p.storageOffered as real)
  {}

  /** So scores of peers that offer what they have lie between zero and one. */
  lemma ScoreBounds(p: PeerInfo)
    requires 0.0 <= p.reliability <= 1.0 && p.storageAvailable <= p.storageOffered
    ensures 0.0 <= Score(p) <= 1.0
    ensures Score(p) == 1.0 <==>
              p.reliability == 1.0 && p.latencyMs == 0 && p.storageAvailable == p.storageOffered > 0
  {
    if p.storageOffered > 0 {
      ShareBounds(p.storageAvailable as real, p.storageOffered as real);
    }
  }

  lemma ShareBounds(a: real, b: real)
    requires 0.0 <= a <= b && b > 0.0
    ensures 0.0 <= a / b <= 1.0 && (a / b == 1.0 <==> a == b)
  {}

  /** Which peers are healthy, and which of them are candidates for so many bytes. */
  lemma HealthyExact(b: Book, id: string, requiredBytes: nat, now: int)
    ensures id in HealthyPeers(b, now) <==>
            && id in b.peers && var p := b.peers[id];
            && !(p.peerId in b.blacklist && now < b.blacklist[p.peerId])
            && p.reliability >= 0.3 && now - p.lastSeen <= 3600
    ensures id in HealthyPeers(b, now) ==> HealthyPeers(b, now)[id] == b.peers[id]
    ensures id in Candidates(b, requiredBytes, now) <==>
            id in HealthyPeers(b, now) && b.peers[id].storageAvailable >= requiredBytes
    ensures id in Candidates(b, requiredBytes, now) ==> Candidates(b, requiredBytes, now)[id] == b.peers[id]
  {}

  // ---- Updates ------------------------------------------------------------------------------

  function Clamp(x: real): real { if x < 0.0 then 0.0 else if x > 1.0 then 1.0 else x }

  function WithPeer(b: Book, info: PeerInfo, now: int): Book {
    b.(peers := b.peers[info.peerId := info.(lastSeen := now)])
  }

  function WithBlacklisted(b: Book, peerId: string, durationSeconds: int, now: int): Book {
    b.(blacklist := b.blacklist[peerId := now + durationSeconds])
  }

  function WithReliability(b: Book, peerId: string, delta: real, now: int): Book {
    if peerId !in b.peers then b
    else
      var reliability := Clamp(b.peers[peerId].reliability + delta);
      var b1 := b.(peers := b.peers[peerId := b.peers[peerId].(reliability := reliability)]);
      if reliability < 0.1 then WithBlacklisted(b1, peerId, 3600, now) else b1
  }

  function Pruned(b: Book, now: int): Book {
    Book(map id | id in b.peers && now - b.peers[id].lastSeen <= MAX_AGE_SECONDS :: b.peers[id],
         map id | id in b.blacklist && now < b.blacklist[id] :: b.blacklist[id])
  }

  /** An added peer was seen just now, and everyone else is as before. */
  lemma AddedExact(b: Book, info: PeerInfo, now: int, id: string)
    ensures var after := WithPeer(b, info, now);
            && after.blacklist == b.blacklist
            && info.peerId in after.peers && after.peers[info.peerId] == info.(lastSeen := now)
            && (id != info.peerId ==>
                  (id in after.peers <==> id in b.peers) && (id in b.peers ==> after.peers[id] == b.peers[id]))
  {}

  /** Blacklisting lasts until `durationSeconds` from now, whatever was set before, and touches no one else. */
  lemma BlacklistedExact(b: Book, peerId: string, durationSeconds: int, now: int, id: string, later: int)
    ensures var after := WithBlacklisted(b, peerId, durationSeconds, now);
            && after.peers == b.peers
            && (Blacklisted(after, peerId, later) <==> later < now + durationSeconds)
            && (id != peerId ==> (Blacklisted(after, id, later) <==> Blacklisted(b, id, later)))
  {}

  /**
   An update moves a known peer's reliability, kept between zero and one, and nothing else of it; a
   result below 0.1 blacklists the peer for an hour.
   */
  lemma UpdatedExact(b: Book, peerId: string, delta: real, now: int, id: string, later: int)
    ensures var after := WithReliability(b, peerId, delta, now);
            && (peerId !in b.peers ==> after == b)
            && (peerId in b.peers ==>
                  var sum := b.peers[peerId].reliability + delta;
                  var r := after.peers[peerId].reliability;
                  && after.peers.Keys == b.peers.Keys
                  && after.peers[peerId] == b.peers[peerId].(reliability := r)
                  && 0.0 <= r <= 1.0 && (0.0 <= sum <= 1.0 ==> r == sum)
                  && (sum < 0.0 ==> r == 0.0) && (sum > 1.0 ==> r == 1.0)
                  && (id in b.peers && id != peerId ==> after.peers[id] == b.peers[id])
                  && (Blacklisted(after, peerId, later) <==>
                        if r < 0.1 then later < now + 3600 else Blacklisted(b, peerId, later))
                  && (id != peerId ==> (Blacklisted(after, id, later) <==> Blacklisted(b, id, later))))
  {}

  /** Pruning removes exactly the peers not seen for an hour and the blacklistings that are over. */
  lemma PrunedExact(b: Book, now: int, id: string)
    ensures var after := Pruned(b, now);
            && (id in after.peers <==> id in b.peers && now - b.peers[id].lastSeen <= 3600)
            && (id in after.peers ==> after.peers[id] == b.peers[id])
            && (id in after.blacklist <==> id in b.blacklist && now < b.blacklist[id])
            && (id in after.blacklist ==> after.blacklist[id] == b.blacklist[id])
  {}

  // ---- Selection ----------------------------------------------------------------------------

  /** Inserts an id behind all ids with at least its score. */
  function Insert(peers: map<string, PeerInfo>, sorted: seq<string>, id: string): (r: seq<string>)
    requires id in peers && forall i :: 0 <= i < |sorted| ==> sorted[i] in peers
    ensures forall i :: 0 <= i < |r| ==> r[i] in peers
    ensures multiset(r) == multiset(sorted) + multiset{id}
    decreases |sorted|
  {
    if sorted == [] then [id]
    else
      var n := |sorted| - 1;
      assert sorted == sorted[..n] + [sorted[n]];
      if Score(peers[sorted[n]]) >= Score(peers[id]) then sorted + [id]
      else Insert(peers, sorted[..n], id) + [sorted[n]]
  }

  /** A stable sort, best score first. */
  function SortByScore(peers: map<string, PeerInfo>, ids: seq<string>): (r: seq<string>)
    requires forall i :: 0 <= i < |ids| ==> ids[i] in peers
    ensures forall i :: 0 <= i < |r| ==> r[i] in peers
    ensures multiset(r) == multiset(ids)
    decreases |ids|
  {
    if ids == [] then []
    else
      var n := |ids| - 1;
      assert ids == ids[..n] + [ids[n]];
      Insert(peers, SortByScore(peers, ids[..n]), ids[n])
  }

  ghost predicate Descending(peers: map<string, PeerInfo>, ids: seq<string>)
    requires forall i :: 0 <= i < |ids| ==> ids[i] in peers
  {
    forall i, j :: 0 <= i < j < |ids| ==> Score(peers[ids[i]]) >= Score(peers[ids[j]])
  }

  lemma {:induction false} InsertDescending(peers: map<string, PeerInfo>, sorted: seq<string>, id: string)
    requires id in peers && forall i :: 0 <= i < |sorted| ==> sorted[i] in peers
    requires Descending(peers, sorted)
    ensures Descending(peers, Insert(peers, sorted, id))
    decreases |sorted|
  {
    hide Score;
    if sorted != [] {
      var n := |sorted| - 1;
      if Score(peers[sorted[n]]) < Score(peers[id]) {
        InsertDescending(peers, sorted[..n], id);
        var front := Insert(peers, sorted[..n], id);
        forall i | 0 <= i < |front| ensures Score(peers[front[i]]) >= Score(peers[sorted[n]]) {
          assert front[i] in multiset(front);
          assert front[i] == id || front[i] in sorted[..n];
        }
      }
    }
  }

  lemma {:induction false} SortDescending(peers: map<string, PeerInfo>, ids: seq<string>)
    requires forall i :: 0 <= i < |ids| ==> ids[i] in peers
    ensures Descending(peers, SortByScore(peers, ids))
    decreases |ids|
  {
    hide Score, Insert;
    if ids != [] {
      var n := |ids| - 1;
      SortDescending(peers, ids[..n]);
      InsertDescending(peers, SortByScore(peers, ids[..n]), ids[n]);
    }
  }

  /** Each key of a map exactly once. */
  ghost predicate Lists(ids: seq<string>, peers: map<string, PeerInfo>) {
    multiset(ids) == multiset(peers.Keys)
  }

  /** The best `count` of the candidates, best first. */
  ghost predicate BestOf(selected: seq<PeerInfo>, ids: seq<string>, candidates: map<string, PeerInfo>, count: nat) {
    && |selected| == |ids| == Min(count, |candidates|)
    && (forall i :: 0 <= i < |ids| ==> ids[i] in candidates && selected[i] == candidates[ids[i]])
    && (forall i, j :: 0 <= i < j < |ids| ==> ids[i] != ids[j])
    && (forall i, j :: 0 <= i < j < |selected| ==> Score(selected[i]) >= Score(selected[j]))
    && (forall id, i :: id in candidates && id !in ids && 0 <= i < |selected| ==> Score(candidates[id]) <= Score(selected[i]))
  }

  ghost predicate Best(selected: seq<PeerInfo>, candidates: map<string, PeerInfo>, count: nat) {
    exists ids :: BestOf(selected, ids, candidates, count)
  }

  lemma BestNamed(selected: seq<PeerInfo>, ids: seq<string>, candidates: map<string, PeerInfo>, count: nat)
    requires BestOf(selected, ids, candidates, count)
    ensures Best(selected, candidates, count)
  {
    hide BestOf;
  }

  /** Sorting all candidates and keeping the first `count` selects the best. */
  lemma TakeIsBest(candidates: map<string, PeerInfo>, ids: seq<string>, count: nat)
    requires Lists(ids, candidates) && forall i :: 0 <= i < |ids| ==> ids[i] in candidates
    ensures var sorted := SortByScore(candidates, ids);
            var best := sorted[..Min(count, |sorted|)];
            BestOf(seq(|best|, i requires 0 <= i < |best| => candidates[best[i]]), best, candidates, count)
  {
    hide Score, SortByScore;
    var sorted := SortByScore(candidates, ids);
    SortDescending(candidates, ids);
    assert multiset(sorted) == multiset(candidates.Keys);
    assert |sorted| == |multiset(sorted)| == |candidates|;
    NoRepeats(sorted, candidates.Keys);
    forall id | id in candidates ensures exists i :: 0 <= i < |sorted| && sorted[i] == id {
      assert id in multiset(sorted);
    }
  }

  lemma NoRepeats(ids: seq<string>, s: set<string>)
    requires multiset(ids) == multiset(s)
    ensures forall i, j :: 0 <= i < j < |ids| ==> ids[i] != ids[j]
  {
    forall i, j | 0 <= i < j < |ids| ensures ids[i] != ids[j] {
      var x, front, back := ids[j], ids[..j], ids[j..];
      assert ids == front + back;
      assert back[0] == x && x in multiset(back);
      assert multiset(ids)[x] == multiset(front)[x] + multiset(back)[x];
      assert multiset(front)[x] == 0;
      assert front[i] == ids[i] && front[i] in multiset(front);
    }
  }

  // ---- The manager --------------------------------------------------------------------------

  class PeerManager {
    var peers: map<string, PeerInfo>
    var blacklist: map<string, int>

    ghost function View(): Book
      reads this
    {
      Book(peers, blacklist)
    }

    constructor ()
      ensures View() == Book(map[], map[])
    {
      peers := map[];
      blacklist := map[];
    }

    method AddPeer(info: PeerInfo, now: int)
      modifies this
      ensures View() == WithPeer(old(View()), info, now)
    {
      var touched := info.(lastSeen := now);
      peers := peers[touched.peerId := touched];
    }

    method UpdateReliability(peerId: string, delta: real, now: int)
      modifies this
      ensures View() == WithReliability(old(View()), peerId, delta, now)
    {
      if peerId in peers {
        var reliability := Clamp(peers[peerId].reliability + delta);
        peers := peers[peerId := peers[peerId].(reliability := reliability)];
        if reliability < 0.1 {
          BlacklistPeer(peerId, 3600, now);
        }
      }
    }

    method BlacklistPeer(peerId: string, durationSeconds: int, now: int)
      modifies this`blacklist
      ensures View() == WithBlacklisted(old(View()), peerId, durationSeconds, now)
    {
      var expiry := now + durationSeconds;
      blacklist := blacklist[peerId := expiry];
    }

    method PruneStale(now: int)
      modifies this
      ensures View() == Pruned(old(View()), now)
    {
      peers := map id | id in peers && now - peers[id].lastSeen <= MAX_AGE_SECONDS :: peers[id];
      blacklist := map id | id in blacklist && now < blacklist[id] :: blacklist[id];
    }

    method SelectStoragePeers(requiredBytes: nat, count: nat, now: int) returns (selected: seq<PeerInfo>)
      ensures Best(selected, Candidates(View(), requiredBytes, now), count)
    {
      hide Best, BestOf, Score, SortByScore, Eligible;
      var b := Book(peers, blacklist);
      ghost var candidates := Candidates(b, requiredBytes, now);
      var found := CollectCandidates(b, requiredBytes, now);
      forall i | 0 <= i < |found| ensures found[i] in candidates {
        assert found[i] in multiset(found);
      }
      TakeIsBest(candidates, found, count);
      SortSameValues(candidates, peers, found);
      var sorted := SortByScore(peers, found);
      var best := sorted[..Min(count, |sorted|)];
      selected := seq(|best|, i requires 0 <= i < |best| => b.peers[best[i]]);
      assert selected == seq(|best|, i requires 0 <= i < |best| => candidates[best[i]]);
      BestNamed(selected, best, candidates, count);
    }
  }

  /** Filters the peers in the order in which the hash map yields them. */
  method CollectCandidates(b: Book, requiredBytes: nat, now: int) returns (found: seq<string>)
    ensures Lists(found, Candidates(b, requiredBytes, now))
  {
    hide Eligible;
    found := [];
    var todo := b.peers.Keys;
    ghost var all := Candidates(b, requiredBytes, now).Keys;
    assert all - todo == {};
    while todo != {}
      invariant todo <= b.peers.Keys
      invariant multiset(found) == multiset(all - todo)
      decreases |todo|
    {
      var id :| id in todo;
      if Eligible(b, b.peers[id], requiredBytes, now) {
        found := found + [id];
        assert all - (todo - {id}) == (all - todo) + {id};
      } else {
        assert all - (todo - {id}) == all - todo;
      }
      todo := todo - {id};
    }
    assert all - todo == all;
  }

  lemma {:induction false} InsertSameValues(a: map<string, PeerInfo>, b: map<string, PeerInfo>, sorted: seq<string>, id: string)
    requires forall k :: k in a ==> k in b && a[k] == b[k]
    requires id in a && forall i :: 0 <= i < |sorted| ==> sorted[i] in a
    ensures Insert(a, sorted, id) == Insert(b, sorted, id)
    decreases |sorted|
  {
    hide Score;
    if sorted != [] {
      InsertSameValues(a, b, sorted[..|sorted| - 1], id);
    }
  }

  lemma {:induction false} SortSameValues(a: map<string, PeerInfo>, b: map<string, PeerInfo>, ids: seq<string>)
    requires forall k :: k in a ==> k in b && a[k] == b[k]
    requires forall i :: 0 <= i < |ids| ==> ids[i] in a
    ensures SortByScore(a, ids) == SortByScore(b, ids)
    decreases |ids|
  {
    hide Insert;
    if ids != [] {
      var n := |ids| - 1;
      SortSameValues(a, b, ids[..n]);
      InsertSameValues(a, b, SortByScore(a, ids[..n]), ids[n]);
    }
  }

  // ---- Pruning is not observable ------------------------------------------------------------

  datatype Operation =
    | Add(info: PeerInfo)
    | Update(peerId: string, delta: real)
    | Blacklist(peerId: string, durationSeconds: int)
    | Prune

  datatype Event = Event(now: int, op: Operation)

  function Step(b: Book, e: Event): Book {
    match e.op
    case Add(info) => WithPeer(b, info, e.now)
    case Update(peerId, delta) => WithReliability(b, peerId, delta, e.now)
    case Blacklist(peerId, duration) => WithBlacklisted(b, peerId, duration, e.now)
    case Prune => Pruned(b, e.now)
  }

  function Run(b: Book, events: seq<Event>): Book
    decreases |events|
  {
    if events == [] then b else Run(Step(b, events[0]), events[1..])
  }

  /** The same run in which nothing is ever pruned. */
  function RunUnpruned(b: Book, events: seq<Event>): Book
    decreases |events|
  {
    if events == [] then b else RunUnpruned(if events[0].op.Prune? then b else Step(b, events[0]), events[1..])
  }

  ghost predicate HidesPeers(full: map<string, PeerInfo>, pruned: map<string, PeerInfo>, now: int) {
    && (forall id :: id in pruned ==> id in full && full[id] == pruned[id])
    && (forall id :: id in full && id !in pruned ==> Stale(full[id], now))
  }

  ghost predicate HidesEntries(full: map<string, int>, pruned: map<string, int>, now: int) {
    && (forall id :: id in pruned ==> id in full && full[id] == pruned[id])
    && (forall id :: id in full && id !in pruned ==> full[id] <= now)
  }

  /** `pruned` lacks nothing of `full` but peers that are stale and blacklistings that are over. */
  ghost predicate Hides(full: Book, pruned: Book, now: int) {
    HidesPeers(full.peers, pruned.peers, now) && HidesEntries(full.blacklist, pruned.blacklist, now)
  }

  /** No update of a peer that has gone stale changes the blacklist. */
  predicate Observant(b: Book, e: Event) {
    e.op.Update? && e.op.peerId in b.peers && Stale(b.peers[e.op.peerId], e.now) ==>
      || Clamp(b.peers[e.op.peerId].reliability + e.op.delta) >= 0.1
      || (e.op.peerId in b.blacklist && b.blacklist[e.op.peerId] == e.now + 3600)
  }

  predicate ObservantRun(b: Book, events: seq<Event>)
    decreases |events|
  {
    events != [] ==>
      Observant(b, events[0]) && ObservantRun(if events[0].op.Prune? then b else Step(b, events[0]), events[1..])
  }

  ghost predicate ClockRuns(now: int, events: seq<Event>)
    decreases |events|
  {
    events != [] ==> now <= events[0].now && ClockRuns(events[0].now, events[1..])
  }

  function LastNow(now: int, events: seq<Event>): int
    decreases |events|
  {
    if events == [] then now else LastNow(events[0].now, events[1..])
  }

  lemma HidesLater(full: Book, pruned: Book, before: int, now: int)
    requires Hides(full, pruned, before) && before <= now
    ensures Hides(full, pruned, now)
  {
  }

  lemma UpdateHides(full: Book, pruned: Book, e: Event)
    requires Hides(full, pruned, e.now) && Observant(full, e) && e.op.Update?
    ensures Hides(Step(full, e), Step(pruned, e), e.now)
  {
    hide Clamp, HidesPeers, HidesEntries;
    var id := e.op.peerId;
    var r := if id in full.peers then Clamp(full.peers[id].reliability + e.op.delta) else 0.0;
    PeersUpdated(full.peers, pruned.peers, id, r, e.now);
    EntriesUpdated(full.blacklist, pruned.blacklist, id, e.now + 3600, e.now);
    PeersAgree(full.peers, pruned.peers, id, e.now);
  }

  lemma PeersAgree(full: map<string, PeerInfo>, pruned: map<string, PeerInfo>, id: string, now: int)
    requires HidesPeers(full, pruned, now)
    ensures id in pruned ==> id in full && full[id] == pruned[id]
    ensures id in full && id !in pruned ==> Stale(full[id], now)
  {
  }

  lemma PeersUpdated(full: map<string, PeerInfo>, pruned: map<string, PeerInfo>, id: string, r: real, now: int)
    requires HidesPeers(full, pruned, now)
    ensures id in pruned ==> id in full && HidesPeers(full[id := full[id].(reliability := r)], pruned[id := pruned[id].(reliability := r)], now)
    ensures id in full && id !in pruned ==> HidesPeers(full[id := full[id].(reliability := r)], pruned, now)
  {
  }

  lemma EntriesUpdated(full: map<string, int>, pruned: map<string, int>, id: string, expiry: int, now: int)
    requires HidesEntries(full, pruned, now) && expiry > now
    ensures HidesEntries(full[id := expiry], pruned[id := expiry], now)
    ensures id in full && full[id] == expiry ==> HidesEntries(full[id := expiry], pruned, now)
  {
    assert id in full && full[id] == expiry ==> full[id := expiry] == full;
  }

  lemma StepHides(full: Book, pruned: Book, before: int, e: Event)
    requires Hides(full, pruned, before) && before <= e.now && Observant(full, e)
    ensures Hides(if e.op.Prune? then full else Step(full, e), Step(pruned, e), e.now)
  {
    hide WithReliability;
    HidesLater(full, pruned, before, e.now);
    if e.op.Update? {
      UpdateHides(full, pruned, e);
    }
  }

  lemma {:induction false} RunHides(full: Book, pruned: Book, now: int, events: seq<Event>)
    requires Hides(full, pruned, now) && ClockRuns(now, events) && ObservantRun(full, events)
    ensures Hides(RunUnpruned(full, events), Run(pruned, events), LastNow(now, events))
    decreases |events|
  {
    hide Hides, Step, Observant;
    if events != [] {
      var e := events[0];
      StepHides(full, pruned, now, e);
      RunHides(if e.op.Prune? then full else Step(full, e), Step(pruned, e), e.now, events[1..]);
    }
  }

  /** What is hidden cannot be seen in any answer from then on. */
  lemma HiddenIsUnseen(full: Book, pruned: Book, now: int, later: int, requiredBytes: nat)
    requires Hides(full, pruned, now) && now <= later
    ensures HealthyPeers(full, later) == HealthyPeers(pruned, later)
    ensures Candidates(full, requiredBytes, later) == Candidates(pruned, requiredBytes, later)
  {
    forall p: PeerInfo ensures Blacklisted(full, p.peerId, later) == Blacklisted(pruned, p.peerId, later) {}
    forall id | id in full.peers && id !in pruned.peers ensures !Healthy(full, full.peers[id], later) {}
  }

  /**
   Pruning is not observable: over every run, at every later time, the healthy peers, the storage
   they offer and the candidates for selection are what they are without any pruning.
   */
  lemma PruningUnobservable(b: Book, now: int, events: seq<Event>, later: int, requiredBytes: nat)
    requires ClockRuns(now, events) && ObservantRun(b, events) && LastNow(now, events) <= later
    ensures HealthyPeers(Run(b, events), later) == HealthyPeers(RunUnpruned(b, events), later)
    ensures Candidates(Run(b, events), requiredBytes, later) == Candidates(RunUnpruned(b, events), requiredBytes, later)
    ensures TotalAvailable(HealthyPeers(Run(b, events), later)) == TotalAvailable(HealthyPeers(RunUnpruned(b, events), later))
  {
    hide Run, RunUnpruned, ObservantRun, ClockRuns, LastNow;
    RunHides(b, b, now, events);
    HiddenIsUnseen(RunUnpruned(b, events), Run(b, events), LastNow(now, events), later, requiredBytes);
  }

  /** No continuation tells the two books apart. */
  ghost predicate Indistinguishable(full: Book, pruned: Book, now: int) {
    forall events, later ::
      ClockRuns(now, events) && ObservantRun(full, events) && LastNow(now, events) <= later ==>
        HealthyPeers(Run(pruned, events), later) == HealthyPeers(RunUnpruned(full, events), later)
  }

  lemma OneAdd(b: Book, info: PeerInfo, now: int)
    ensures var events := [Event(now, Add(info))];
            && Run(b, events) == RunUnpruned(b, events) == WithPeer(b, info, now)
            && ObservantRun(b, events) && ClockRuns(now, events) && LastNow(now, events) == now
  {
    hide WithPeer;
    var e := Event(now, Add(info));
    assert [e][1..] == [];
    assert Run(b, [e]) == Run(Step(b, e), []);
    assert RunUnpruned(b, [e]) == RunUnpruned(Step(b, e), []);
  }

  /** The peer returns: then only the blacklist tells whether it is healthy. */
  lemma ReturningPeer(b: Book, info: PeerInfo, now: int, later: int)
    requires info.reliability >= MIN_RELIABILITY && later - now <= MAX_AGE_SECONDS
    ensures info.peerId in HealthyPeers(WithPeer(b, info, now), later) <==> !Blacklisted(b, info.peerId, later)
  {
  }

  /** A stale peer driven onto the blacklist can be told apart from one that was pruned before. */
  lemma ForgottenBlacklisting(b: Book, e: Event)
    requires !Observant(b, e)
    ensures !Indistinguishable(Step(b, e), Step(Pruned(b, e.now), e), e.now)
  {
    hide Run, RunUnpruned, ObservantRun, ClockRuns, LastNow, HealthyPeers, WithPeer, Clamp;
    var id := e.op.peerId;
    var full, pruned := Step(b, e), Step(Pruned(b, e.now), e);
    var info := PeerInfo(id, 0, 0, 0.5, 0, e.now);
    var later := if Blacklisted(b, id, e.now) then Min(b.blacklist[id], e.now + 3600) else e.now;
    assert Blacklisted(full, id, later) != Blacklisted(pruned, id, later);
    OneAdd(full, info, e.now);
    OneAdd(pruned, info, e.now);
    ReturningPeer(full, info, e.now, later);
    ReturningPeer(pruned, info, e.now, later);
    assert later >= e.now;
  }

  /**
   The condition is exact: an update can be told to have come after a pruning rather than without
   one, by some later answer, if and only if it is not observant.
   */
  lemma ObservantExact(b: Book, e: Event)
    requires !e.op.Prune?
    ensures Observant(b, e) <==> Indistinguishable(Step(b, e), Step(Pruned(b, e.now), e), e.now)
  {
    var full, pruned := Step(b, e), Step(Pruned(b, e.now), e);
    if Observant(b, e) {
      assert Hides(b, Pruned(b, e.now), e.now);
      StepHides(b, Pruned(b, e.now), e.now, e);
      forall events, later | ClockRuns(e.now, events) && ObservantRun(full, events) && LastNow(e.now, events) <= later
        ensures HealthyPeers(Run(pruned, events), later) == HealthyPeers(RunUnpruned(full, events), later)
      {
        hide *;
        RunHides(full, pruned, e.now, events);
        HiddenIsUnseen(RunUnpruned(full, events), Run(pruned, events), LastNow(e.now, events), later, 0);
      }
    } else {
      ForgottenBlacklisting(b, e);
    }
  }
}

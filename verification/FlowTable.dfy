/** The bounded table of conversations. */
module FlowTable {
  import opened Common
  import opened Flow

  /** Times are microseconds. */
  datatype Config = Config(flowTimeout: nat, maxFlows: nat)

  datatype FlowMetadata = FlowMetadata(
    flowId: FlowId, firstSeen: int, lastSeen: int, packetCount: nat, byteCount: nat)

  type Flows = map<FlowId, FlowMetadata>

  /** An update carries the entry it evicts, if any: iteration order, and so the choice among equally old entries, is
      unspecified. */
  datatype Event =
    | Updated(flowId: FlowId, timestamp: int, captureLength: nat, evicted: Option<FlowId>)
    | CleanedUp(now: int)

  predicate Expired(cfg: Config, lastSeen: int, now: int) {
    now > lastSeen && now - lastSeen > cfg.flowTimeout
  }

  predicate Oldest(flows: Flows, id: FlowId) {
    id in flows && forall other :: other in flows ==> flows[id].lastSeen <= flows[other].lastSeen
  }

  /** An update evicts an oldest entry exactly when it is for a new conversation and the table is full. */
  predicate Possible(cfg: Config, flows: Flows, e: Event) {
    e.Updated? ==>
      if Normalize(e.flowId) !in flows && |flows| >= cfg.maxFlows
      then e.evicted.Some? && Oldest(flows, e.evicted.value)
      else e.evicted.None?
  }

  /** A new conversation meets a full table without entries. */
  predicate NothingToEvict(cfg: Config, flows: Flows, flowId: FlowId) {
    Normalize(flowId) !in flows && |flows| >= cfg.maxFlows && flows == map[]
  }

  function Touch(m: FlowMetadata, timestamp: int, captureLength: nat): FlowMetadata {
    m.(lastSeen := timestamp, packetCount := m.packetCount + 1, byteCount := m.byteCount + captureLength)
  }

  function ExpiredKeys(cfg: Config, flows: Flows, now: int): set<FlowId> {
    set id | id in flows && Expired(cfg, flows[id].lastSeen, now)
  }

  /** The entries last updated more than `flowTimeout` before `now`. */
  function LateKeys(cfg: Config, flows: Flows, now: int): set<FlowId> {
    set id | id in flows && now - flows[id].lastSeen > cfg.flowTimeout
  }

  /** The expired entries among those that are not in `rest`. */
  ghost function Checked(cfg: Config, flows: Flows, now: int, rest: set<FlowId>): set<FlowId> {
    ExpiredKeys(cfg, flows, now) - rest
  }

  lemma OneMoreChecked(cfg: Config, flows: Flows, now: int, rest: set<FlowId>, id: FlowId)
    requires id in rest && id in flows
    ensures id !in Checked(cfg, flows, now, rest)
    ensures Checked(cfg, flows, now, rest - {id})
            == Checked(cfg, flows, now, rest) + (if Expired(cfg, flows[id].lastSeen, now) then {id} else {})
  {
  }

  lemma NothingChecked(cfg: Config, flows: Flows, now: int)
    ensures Checked(cfg, flows, now, flows.Keys) == {}
  {
  }

  lemma AllChecked(cfg: Config, flows: Flows, now: int)
    ensures Checked(cfg, flows, now, {}) == ExpiredKeys(cfg, flows, now) == LateKeys(cfg, flows, now)
  {
  }

  function Apply(cfg: Config, flows: Flows, e: Event): Flows {
    match e
    case Updated(flowId, timestamp, captureLength, evicted) =>
      var id := Normalize(flowId);
      if id in flows then flows[id := Touch(flows[id], timestamp, captureLength)]
      else
        var room := if evicted.Some? then flows - {evicted.value} else flows;
        room[id := FlowMetadata(id, timestamp, timestamp, 1, captureLength)]
    case CleanedUp(now) => flows - ExpiredKeys(cfg, flows, now)
  }

  class Table {
    const cfg: Config
    var mFlows: Flows

    constructor (cfg: Config)
      ensures this.cfg == cfg && mFlows == map[]
    {
      this.cfg := cfg;
      mFlows := map[];
    }

    /** None where the code erases the end iterator of an empty table, which has no defined effect. */
    method Update(flowId: FlowId, timestamp: int, captureLength: nat)
      returns (meta: Option<FlowMetadata>, ghost e: Event)
      modifies this
      ensures meta.None? <==> NothingToEvict(cfg, old(mFlows), flowId)
      ensures meta.None? ==> mFlows == old(mFlows)
      ensures meta.Some? ==>
                && e.Updated? && (e.flowId, e.timestamp, e.captureLength) == (flowId, timestamp, captureLength)
                && Possible(cfg, old(mFlows), e)
                && mFlows == Apply(cfg, old(mFlows), e)
                && Normalize(flowId) in mFlows && meta.value == mFlows[Normalize(flowId)]
    {
      var normalizedId := flowId;
      if ShouldSwap(flowId) {
        normalizedId := normalizedId.(srcIp := flowId.dstIp, dstIp := flowId.srcIp,
                                      srcPort := flowId.dstPort, dstPort := flowId.srcPort);
      }
      assert normalizedId == Normalize(flowId);
      ghost var evicted := None;
      if normalizedId !in mFlows {
        if |mFlows| >= cfg.maxFlows {
          assert |mFlows.Keys| == |mFlows|;
          if |mFlows| == 0 {
            return None, CleanedUp(0);
          }
          var oldest := FindOldest(mFlows);
          evicted := Some(oldest);
          mFlows := mFlows - {oldest};
        }
        mFlows := mFlows[normalizedId := FlowMetadata(normalizedId, timestamp, timestamp, 1, captureLength)];
      } else {
        mFlows := mFlows[normalizedId := Touch(mFlows[normalizedId], timestamp, captureLength)];
      }
      return Some(mFlows[normalizedId]), Updated(flowId, timestamp, captureLength, evicted);
    }

    method Lookup(id: FlowId) returns (r: Option<FlowMetadata>)
      ensures r == if id in mFlows then Some(mFlows[id]) else None
    {
      if id in mFlows {
        return Some(mFlows[id]);
      }
      return None;
    }

    method CleanupExpired(now: int) returns (removed: nat)
      modifies this
      ensures mFlows == Apply(cfg, old(mFlows), CleanedUp(now))
      ensures removed == |LateKeys(cfg, old(mFlows), now)|
    {
      hide Checked;
      removed := 0;
      NothingChecked(cfg, mFlows, now);
      var rest := mFlows.Keys;
      ghost var gone := {};
      while rest != {}
        invariant rest <= mFlows.Keys <= old(mFlows).Keys
        invariant mFlows == old(mFlows) - gone
        invariant gone == Checked(cfg, old(mFlows), now, rest)
        invariant removed == |gone|
        decreases |rest|
      {
        var id :| id in rest;
        OneMoreChecked(cfg, old(mFlows), now, rest, id);
        rest := rest - {id};
        if now > mFlows[id].lastSeen && now - mFlows[id].lastSeen > cfg.flowTimeout {
          mFlows := mFlows - {id};
          gone := gone + {id};
          removed := removed + 1;
        }
      }
      AllChecked(cfg, old(mFlows), now);
    }
  }

  /** The eviction scan, in any iteration order. */
  method FindOldest(flows: Flows) returns (oldest: FlowId)
    requires flows.Keys != {}
    ensures Oldest(flows, oldest)
  {
    oldest :| oldest in flows.Keys;
    var rest := flows.Keys;
    while rest != {}
      invariant rest <= flows.Keys && oldest in flows
      invariant forall other :: other in flows && other !in rest ==> flows[oldest].lastSeen <= flows[other].lastSeen
      decreases |rest|
    {
      var check :| check in rest;
      if flows[check].lastSeen < flows[oldest].lastSeen {
        oldest := check;
      }
      rest := rest - {check};
    }
  }

  // ----- Runs -----

  function After(cfg: Config, events: seq<Event>): Flows {
    if events == [] then map[] else Apply(cfg, After(cfg, Init(events)), Last(events))
  }

  predicate Legal(cfg: Config, events: seq<Event>) {
    events == [] || (Legal(cfg, Init(events)) && Possible(cfg, After(cfg, Init(events)), Last(events)))
  }

  predicate Updates(e: Event, id: FlowId) {
    e.Updated? && Normalize(e.flowId) == id
  }

  /** The updates of a conversation since it was last evicted or cleaned up, read off the history alone. */
  function Since(cfg: Config, events: seq<Event>, id: FlowId): seq<Event> {
    if events == [] then []
    else
      var before, e := Since(cfg, Init(events), id), Last(events);
      match e
      case Updated(flowId, _, _, evicted) =>
        if Normalize(flowId) == id then before + [e]
        else if evicted == Some(id) then []
        else before
      case CleanedUp(now) =>
        if before != [] && Last(before).Updated? && now - Last(before).timestamp > cfg.flowTimeout then [] else before
  }

  function BytesOf(events: seq<Event>): nat {
    if events == [] then 0
    else BytesOf(Init(events)) + (if Last(events).Updated? then Last(events).captureLength else 0)
  }

  /** The entry a history prescribes. */
  ghost predicate Summarizes(m: FlowMetadata, id: FlowId, since: seq<Event>) {
    && since != [] && since[0].Updated? && Last(since).Updated?
    && m == FlowMetadata(id, since[0].timestamp, Last(since).timestamp, |since|, BytesOf(since))
  }

  /** A conversation is in the table exactly when it was updated since it was last removed, and its entry counts
      exactly those updates. */
  lemma {:induction false} EntriesAreHistory(cfg: Config, events: seq<Event>, id: FlowId)
    requires Legal(cfg, events)
    ensures id in After(cfg, events) <==> Since(cfg, events, id) != []
    ensures id in After(cfg, events) ==> Canonical(id) && Summarizes(After(cfg, events)[id], id, Since(cfg, events, id))
  {
    if events != [] {
      EntriesAreHistory(cfg, Init(events), id);
      var flows, before, e := After(cfg, Init(events)), Since(cfg, Init(events), id), Last(events);
      if Updates(e, id) {
        NormalizeIdentifiesDirections(e.flowId, e.flowId);
        assert Init(before + [e]) == before;
        if id !in flows {
          assert before + [e] == [e] && BytesOf([]) == 0;
        }
      }
    }
  }

  /** What a cleanup leaves, in plain times: exactly the conversations whose last update is at most `flowTimeout` before
      `now`, or in its future, each with its entry as it was. */
  lemma CleanupLeavesIff(cfg: Config, events: seq<Event>, now: int, id: FlowId)
    requires Legal(cfg, events)
    ensures
      var before, after, since := After(cfg, events), After(cfg, events + [CleanedUp(now)]), Since(cfg, events, id);
      && (id in after <==> since != [] && Last(since).Updated? && now - Last(since).timestamp <= cfg.flowTimeout)
      && (id in after ==> id in before && after[id] == before[id])
  {
    EntriesAreHistory(cfg, events, id);
    assert Init(events + [CleanedUp(now)]) == events;
  }

  /** An update evicts if and only if its conversation is not live and as many conversations are live as the table
      holds. What it evicts is live, no live conversation was last updated before it, and it is gone afterwards. */
  lemma EvictsOldestIff(cfg: Config, events: seq<Event>, e: Event)
    requires Legal(cfg, events + [e]) && e.Updated?
    ensures e.evicted.Some? <==> Since(cfg, events, Normalize(e.flowId)) == [] && |After(cfg, events)| >= cfg.maxFlows
    ensures e.evicted.Some? ==>
              var since := Since(cfg, events, e.evicted.value);
              && since != [] && Last(since).Updated? && e.evicted.value !in After(cfg, events + [e])
              && forall other :: Since(cfg, events, other) != [] ==>
                   var rival := Last(Since(cfg, events, other));
                   rival.Updated? && Last(since).timestamp <= rival.timestamp
  {
    assert Init(events + [e]) == events;
    EntriesAreHistory(cfg, events, Normalize(e.flowId));
    if e.evicted.Some? {
      EntriesAreHistory(cfg, events, e.evicted.value);
      forall other | Since(cfg, events, other) != []
        ensures Last(Since(cfg, events, other)).Updated?
        ensures Last(Since(cfg, events, e.evicted.value)).timestamp <= Last(Since(cfg, events, other)).timestamp
      {
        EntriesAreHistory(cfg, events, other);
      }
    }
  }

  /** The table never outgrows its bound. */
  lemma {:induction false} SizeIsBounded(cfg: Config, events: seq<Event>)
    requires Legal(cfg, events)
    ensures |After(cfg, events)| <= cfg.maxFlows
  {
    if events != [] {
      SizeIsBounded(cfg, Init(events));
      ApplyFits(cfg, After(cfg, Init(events)), Last(events));
    }
  }

  lemma ApplyFits(cfg: Config, flows: Flows, e: Event)
    requires |flows| <= cfg.maxFlows && Possible(cfg, flows, e)
    ensures |Apply(cfg, flows, e)| <= cfg.maxFlows
  {
    var keys, keys' := flows.Keys, Apply(cfg, flows, e).Keys;
    assert |keys| == |flows| && |keys'| == |Apply(cfg, flows, e)|;
    match e
    case Updated(flowId, _, _, evicted) =>
      var id := Normalize(flowId);
      if id in flows {
        assert keys' == keys;
      } else if evicted.Some? {
        assert keys' == (keys - {evicted.value}) + {id};
      } else {
        assert keys' == keys + {id};
      }
    case CleanedUp(now) =>
      SubsetIsSmaller(keys', keys);
  }

  /** In every reachable table, an update has a defined effect if and only if `maxFlows` is positive. */
  lemma UpdateIsDefinedIff(cfg: Config, events: seq<Event>, flowId: FlowId)
    requires Legal(cfg, events)
    ensures !NothingToEvict(cfg, After(cfg, events), flowId) <==> cfg.maxFlows > 0
  {
    SizeIsBounded(cfg, events);
    assert |After(cfg, events)| == 0 ==> After(cfg, events) == map[];
  }

  lemma {:induction false} SubsetIsSmaller<T>(a: set<T>, b: set<T>)
    requires a <= b
    ensures |a| <= |b|
  {
    assert b == a + (b - a);
  }

  /** An id is found exactly when it is given in the canonical direction and its conversation is live. */
  lemma LookupNeedsCanonical(cfg: Config, events: seq<Event>, id: FlowId)
    requires Legal(cfg, events)
    ensures id in After(cfg, events) <==> Canonical(id) && Since(cfg, events, Normalize(id)) != []
  {
    EntriesAreHistory(cfg, events, id);
    NormalizeIdentifiesDirections(id, id);
  }

  // ----- Conservation -----

  datatype Counter = Packets | Bytes

  function Amount(c: Counter, m: FlowMetadata): nat {
    match c
    case Packets => m.packetCount
    case Bytes => m.byteCount
  }

  function EventAmount(c: Counter, e: Event): nat {
    match e
    case Updated(_, _, captureLength, _) => if c.Packets? then 1 else captureLength
    case CleanedUp(_) => 0
  }

  function Amounts(c: Counter, flows: Flows): map<FlowId, nat> {
    map id | id in flows :: Amount(c, flows[id])
  }

  ghost function Live(c: Counter, flows: Flows): nat {
    Sum(Amounts(c, flows))
  }

  /** The entries an event removes. */
  function RemovedBy(cfg: Config, flows: Flows, e: Event): Flows {
    match e
    case Updated(flowId, _, _, evicted) =>
      if Normalize(flowId) !in flows && evicted.Some? && evicted.value in flows
      then map[evicted.value := flows[evicted.value]] else map[]
    case CleanedUp(now) =>
      map id | id in flows && id in ExpiredKeys(cfg, flows, now) :: flows[id]
  }

  /** What the entries removed in a history had counted. */
  ghost function Retired(cfg: Config, c: Counter, events: seq<Event>): nat {
    if events == [] then 0
    else Retired(cfg, c, Init(events)) + Live(c, RemovedBy(cfg, After(cfg, Init(events)), Last(events)))
  }

  function Submitted(c: Counter, events: seq<Event>): nat {
    if events == [] then 0 else Submitted(c, Init(events)) + EventAmount(c, Last(events))
  }

  lemma ApplyConserves(cfg: Config, c: Counter, flows: Flows, e: Event)
    requires Possible(cfg, flows, e)
    ensures Live(c, Apply(cfg, flows, e)) + Live(c, RemovedBy(cfg, flows, e)) == Live(c, flows) + EventAmount(c, e)
  {
    hide Live;
    match e
    case Updated(flowId, timestamp, captureLength, evicted) =>
      if Normalize(flowId) in flows {
        TouchConserves(cfg, c, flows, e);
      } else {
        InsertConserves(cfg, c, flows, e);
      }
    case CleanedUp(now) =>
      RemovalConserves(c, flows, ExpiredKeys(cfg, flows, now), RemovedBy(cfg, flows, e));
  }

  lemma TouchConserves(cfg: Config, c: Counter, flows: Flows, e: Event)
    requires e.Updated? && Normalize(e.flowId) in flows
    ensures Live(c, Apply(cfg, flows, e)) + Live(c, RemovedBy(cfg, flows, e)) == Live(c, flows) + EventAmount(c, e)
  {
    hide Live, Normalize;
    var id := Normalize(e.flowId);
    PutConserves(c, flows, id, Touch(flows[id], e.timestamp, e.captureLength));
    NothingIsLive(c);
  }

  lemma InsertConserves(cfg: Config, c: Counter, flows: Flows, e: Event)
    requires e.Updated? && Normalize(e.flowId) !in flows && (e.evicted.Some? ==> e.evicted.value in flows)
    ensures Live(c, Apply(cfg, flows, e)) + Live(c, RemovedBy(cfg, flows, e)) == Live(c, flows) + EventAmount(c, e)
  {
    hide Live, Normalize;
    var id := Normalize(e.flowId);
    var m := FlowMetadata(id, e.timestamp, e.timestamp, 1, e.captureLength);
    if e.evicted.Some? {
      RemovalConserves(c, flows, {e.evicted.value}, RemovedBy(cfg, flows, e));
      PutConserves(c, flows - {e.evicted.value}, id, m);
    } else {
      NothingIsLive(c);
      PutConserves(c, flows, id, m);
    }
  }

  lemma NothingIsLive(c: Counter)
    ensures Live(c, map[]) == 0
  {
    assert Amounts(c, map[]) == map[];
  }

  lemma PutConserves(c: Counter, room: Flows, id: FlowId, m: FlowMetadata)
    ensures Live(c, room[id := m]) == Live(c, room) + Amount(c, m) - (if id in room then Amount(c, room[id]) else 0)
  {
    assert Amounts(c, room[id := m]) == Amounts(c, room)[id := Amount(c, m)];
    SumPut(Amounts(c, room), id, Amount(c, m));
  }

  lemma RemovalConserves(c: Counter, flows: Flows, gone: set<FlowId>, removed: Flows)
    requires removed == map id | id in flows && id in gone :: flows[id]
    ensures Live(c, flows) == Live(c, flows - gone) + Live(c, removed)
  {
    SumSplit(Amounts(c, flows), gone);
    assert Amounts(c, flows - gone) == Amounts(c, flows) - gone;
    assert Amounts(c, removed) == map id | id in Amounts(c, flows) && id in gone :: Amounts(c, flows)[id];
  }

  /** Live and retired counts together equal the totals of all updates, for packets and for bytes. */
  lemma {:induction false} CountsAreConserved(cfg: Config, c: Counter, events: seq<Event>)
    requires Legal(cfg, events)
    ensures Live(c, After(cfg, events)) + Retired(cfg, c, events) == Submitted(c, events)
  {
    if events == [] {
      NothingIsLive(c);
    } else {
      CountsAreConserved(cfg, c, Init(events));
      ApplyConserves(cfg, c, After(cfg, Init(events)), Last(events));
    }
  }
}

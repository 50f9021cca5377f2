/** The telemetry ledger: rows buffered on a client and pushed to a server in heartbeats. */
module Telemetry {

  datatype Record = Record(
    devUuid: string, timestamp: string, model: string, tokensOrig: nat, tokensPruned: nat, usdAvoided: real, team: string)

  datatype Row = Row(id: nat, record: Record, synced: bool)

  /** An id and what was recorded under it. */
  type Item = (nat, Record)

  const BATCH_LIMIT := 100

  function ItemOf(r: Row): Item { (r.id, r.record) }

  function Items(rows: seq<Row>): seq<Item> { seq(|rows|, j requires 0 <= j < |rows| => ItemOf(rows[j])) }

  /** Unsynced rows in id order. */
  function Unsynced(rows: seq<Row>): seq<Item> {
    if rows == [] then []
    else Unsynced(rows[..|rows| - 1]) + (var r := rows[|rows| - 1]; if r.synced then [] else [ItemOf(r)])
  }

  /** SQL's LIMIT: a negative limit is no limit. */
  function Limit(items: seq<Item>, limit: int): seq<Item> {
    if 0 <= limit < |items| then items[..limit] else items
  }

  function Marked(rows: seq<Row>, ids: seq<nat>): seq<Row> {
    seq(|rows|, j requires 0 <= j < |rows| => if rows[j].id in ids then rows[j].(synced := true) else rows[j])
  }

  function Ids(items: seq<Item>): seq<nat> { seq(|items|, j requires 0 <= j < |items| => items[j].0) }

  function Appended(rows: seq<Row>, records: seq<Record>, synced: bool): (r: seq<Row>)
    ensures |r| == |rows| + |records| && rows <= r
  {
    rows + seq(|records|, j requires 0 <= j < |records| => Row(|rows| + j + 1, records[j], synced))
  }

  function Records(items: seq<Item>): seq<Record> { seq(|items|, j requires 0 <= j < |items| => items[j].1) }

  /** AUTOINCREMENT on a table rows are never deleted from. */
  predicate Numbered(rows: seq<Row>) { forall j :: 0 <= j < |rows| ==> rows[j].id == j + 1 }

  class TelemetryLedger {
    var rows: seq<Row>

    predicate Valid() reads this { Numbered(rows) }

    constructor ()
      ensures Valid() && rows == []
    {
      rows := [];
    }

    method RecordEvent(record: Record, synced: bool) returns (id: nat)
      requires Valid()
      modifies this
      ensures Valid() && rows == old(rows) + [Row(id, record, synced)] == Appended(old(rows), [record], synced)
      ensures forall r :: r in old(rows) ==> r.id < id
    {
      id := |rows| + 1;
      rows := rows + [Row(id, record, synced)];
    }

    method IngestBatch(records: seq<Record>) returns (n: nat)
      requires Valid()
      modifies this
      ensures Valid() && n == |records| && rows == Appended(old(rows), records, true)
    {
      n := |records|;
      if records == [] {
        assert Appended(rows, records, true) == rows;
        return;
      }
      for j := 0 to |records|
        invariant Valid() && rows == Appended(old(rows), records[..j], true)
      {
        assert records[..j + 1] == records[..j] + [records[j]];
        rows := rows + [Row(|rows| + 1, records[j], true)];
      }
      assert records[..|records|] == records;
    }

    /** The oldest unsynced rows, at most limit of them. */
    method GetUnsyncedRecords(limit: int) returns (items: seq<Item>)
      ensures items == Limit(Unsynced(rows), limit)
      ensures items <= Unsynced(rows)
      ensures |items| == if 0 <= limit < |Unsynced(rows)| then limit else |Unsynced(rows)|
    {
      items := [];
      var all := 0;
      for j := 0 to |rows|
        invariant all == |Unsynced(rows[..j])| && items == Limit(Unsynced(rows[..j]), limit)
      {
        assert rows[..j + 1][..j] == rows[..j] && rows[..j + 1][j] == rows[j];
        if !rows[j].synced {
          if limit < 0 || all < limit { items := items + [ItemOf(rows[j])]; }
          all := all + 1;
        }
      }
      assert rows[..|rows|] == rows;
    }

    method MarkAsSynced(ids: seq<nat>)
      requires Valid()
      modifies this
      ensures Valid() && rows == Marked(old(rows), ids) && |rows| == |old(rows)|
      ensures forall j :: 0 <= j < |rows| ==> rows[j].id == old(rows)[j].id && rows[j].record == old(rows)[j].record
                                              && (rows[j].synced <==> old(rows)[j].synced || old(rows)[j].id in ids)
    {
      if ids == [] {
        assert Marked(rows, ids) == rows;
        return;
      }
      ghost var was := rows;
      for j := 0 to |rows|
        invariant |rows| == |was| && rows == Marked(was, ids)[..j] + was[j..]
      {
        if rows[j].id in ids { rows := rows[j := rows[j].(synced := true)]; }
      }
    }
  }

  /** What the client sees of a post, and whether the server ingested it. */
  datatype Reply = Accepted | AcceptedUnseen | Refused

  /** One heartbeat between a client ledger and the server's push endpoint. */
  method PushHeartbeat(client: TelemetryLedger, server: TelemetryLedger, reply: Reply) returns (pushed: nat)
    requires client != server && client.Valid() && server.Valid()
    modifies client, server
    ensures client.Valid() && server.Valid()
    ensures var batch := Limit(Unsynced(old(client.rows)), 100);
      && server.rows == (if reply == Refused then old(server.rows) else Appended(old(server.rows), Records(batch), true))
      && client.rows == (if reply == Accepted then Marked(old(client.rows), Ids(batch)) else old(client.rows))
      && pushed == (if reply == Accepted then |batch| else 0)
  {
    var batch := client.GetUnsyncedRecords(BATCH_LIMIT);
    if batch == [] {
      assert Marked(client.rows, Ids(batch)) == client.rows;
      assert Appended(server.rows, Records(batch), true) == server.rows;
      return 0;
    }
    if reply != Refused { var n := server.IngestBatch(Records(batch)); }
    if reply != Accepted { return 0; }
    client.MarkAsSynced(Ids(batch));
    return |batch|;
  }

  // ---------------------------------------------------------------- protocol
  datatype Pusher = Idle | Fetched(batch: seq<Item>) | Posted(batch: seq<Item>)

  /** The server log keeps, for the statements below, the client id each ingested record came with. */
  datatype State = State(client: seq<Row>, server: seq<Item>, pushers: map<nat, Pusher>)

  function PusherOf(s: State, who: nat): Pusher { if who in s.pushers then s.pushers[who] else Idle }

  datatype Event =
    | Recorded(record: Record)
    | Fetch(who: nat)
    | PostSeen(who: nat)     // ingested, and the client got status 200
    | PostUnseen(who: nat)   // ingested, and the reply was lost or not 200
    | PostFailed(who: nat)   // not ingested
    | Mark(who: nat)
    | Crash(who: nat)

  /** One atomic step; an event whose pusher is not ready for it changes nothing. */
  function Step(s: State, e: Event): State {
    match e
    case Recorded(r) => s.(client := Appended(s.client, [r], false))
    case Fetch(i) =>
      var batch := Limit(Unsynced(s.client), BATCH_LIMIT);
      if PusherOf(s, i).Idle? && batch != [] then s.(pushers := s.pushers[i := Fetched(batch)]) else s
    case PostSeen(i) =>
      if PusherOf(s, i).Fetched? then
        s.(server := s.server + PusherOf(s, i).batch, pushers := s.pushers[i := Posted(PusherOf(s, i).batch)])
      else s
    case PostUnseen(i) =>
      if PusherOf(s, i).Fetched? then s.(server := s.server + PusherOf(s, i).batch, pushers := s.pushers[i := Idle]) else s
    case PostFailed(i) => if PusherOf(s, i).Fetched? then s.(pushers := s.pushers[i := Idle]) else s
    case Mark(i) =>
      if PusherOf(s, i).Posted? then
        s.(client := Marked(s.client, Ids(PusherOf(s, i).batch)), pushers := s.pushers[i := Idle])
      else s
    case Crash(i) => s.(pushers := s.pushers[i := Idle])
  }

  function Run(s: State, events: seq<Event>): State {
    if events == [] then s else Step(Run(s, events[..|events| - 1]), events[|events| - 1])
  }

  const INITIAL := State([], [], map[])

  /** The events of one heartbeat. */
  function BeatOf(i: nat, reply: Reply): seq<Event> {
    match reply
    case Accepted => [Fetch(i), PostSeen(i), Mark(i)]
    case AcceptedUnseen => [Fetch(i), PostUnseen(i)]
    case Refused => [Fetch(i), PostFailed(i)]
  }

  function AfterBeat(s: State, i: nat, reply: Reply): State {
    match reply
    case Accepted => Step(Step(Step(s, Fetch(i)), PostSeen(i)), Mark(i))
    case AcceptedUnseen => Step(Step(s, Fetch(i)), PostUnseen(i))
    case Refused => Step(Step(s, Fetch(i)), PostFailed(i))
  }

  lemma RunBeat(s: State, i: nat, reply: Reply)
    ensures Run(s, BeatOf(i, reply)) == AfterBeat(s, i, reply)
  {
    var post := if reply == Accepted then PostSeen(i) else if reply == AcceptedUnseen then PostUnseen(i) else PostFailed(i);
    RunOne(s, Fetch(i));
    RunMore(s, [Fetch(i)], post);
    assert [Fetch(i)] + [post] == [Fetch(i), post];
    RunMore(s, [Fetch(i), post], Mark(i));
    assert [Fetch(i), post] + [Mark(i)] == [Fetch(i), post, Mark(i)];
    hide Run;
    hide Step;
  }

  /** The steps of one undisturbed heartbeat do to client and server what the heartbeat does, and free the pusher. */
  lemma HeartbeatSteps(s: State, i: nat, reply: Reply)
    requires PusherOf(s, i).Idle?
    ensures var t := Run(s, BeatOf(i, reply)); var batch := Limit(Unsynced(s.client), 100);
      && PusherOf(t, i).Idle? && (forall o :: o != i ==> PusherOf(t, o) == PusherOf(s, o))
      && t.server == (if reply == Refused then s.server else s.server + batch)
      && t.client == (if reply == Accepted then Marked(s.client, Ids(batch)) else s.client)
  {
    RunBeat(s, i, reply);
    var batch := Limit(Unsynced(s.client), 100);
    if batch == [] { NothingMarked(s.client); }
    hide Run;
    hide Unsynced;
    hide Marked;
    hide Limit;
    hide Ids;
    assert s.server + [] == s.server;
  }

  lemma NothingMarked(rows: seq<Row>)
    ensures Ids([]) == [] && Marked(rows, []) == rows
  {
  }

  lemma RunOne(s: State, e: Event)
    ensures Run(s, [e]) == Step(s, e)
  {
    assert [e][..0] == [] && Run(s, []) == s;
  }

  lemma RunMore(s: State, events: seq<Event>, e: Event)
    ensures Run(s, events + [e]) == Step(Run(s, events), e)
  {
    assert (events + [e])[..|events|] == events;
  }

  // ---------------------------------------------------------------- invariant
  /** The first k rows are synced and no other. */
  predicate SyncedPrefix(rows: seq<Row>, k: nat) {
    k <= |rows| && forall j :: 0 <= j < |rows| ==> (rows[j].synced <==> j < k)
  }

  /** A batch is a run of consecutive rows that starts no later than the first unsynced row. */
  predicate IsWindow(rows: seq<Row>, k: nat, batch: seq<Item>) {
    && batch != [] && 1 <= batch[0].0 <= k + 1 && batch[0].0 - 1 + |batch| <= |rows|
    && forall j :: 0 <= j < |batch| ==> batch[j] == ItemOf(rows[batch[0].0 - 1 + j])
  }

  predicate PusherOk(s: State, k: nat, p: Pusher) {
    match p
    case Idle => true
    case Fetched(b) => IsWindow(s.client, k, b)
    case Posted(b) => IsWindow(s.client, k, b) && forall x :: x in b ==> x in s.server
  }

  predicate Inv(s: State, k: nat) {
    && Numbered(s.client) && SyncedPrefix(s.client, k)
    && (forall j :: 0 <= j < k ==> ItemOf(s.client[j]) in s.server)
    && (forall i :: i in s.pushers ==> PusherOk(s, k, s.pushers[i]))
  }

  lemma {:induction false} UnsyncedIsSuffix(rows: seq<Row>, k: nat)
    requires SyncedPrefix(rows, k)
    ensures Unsynced(rows) == Items(rows[k..])
  {
    if rows != [] {
      var n := |rows| - 1;
      var init := rows[..n];
      UnsyncedIsSuffix(init, if k <= n then k else n);
      if k <= n {
        assert rows[k..] == init[k..] + [rows[n]];
        assert Items(rows[k..]) == Items(init[k..]) + [ItemOf(rows[n])];
      } else {
        assert init[n..] == [] && rows[k..] == [];
        assert Unsynced(init) == [];
      }
    }
  }

  lemma {:induction false} WindowGrows(rows: seq<Row>, k: nat, more: seq<Row>, k2: nat, batch: seq<Item>)
    requires IsWindow(rows, k, batch) && k <= k2 && |rows| <= |more|
    requires forall j :: 0 <= j < |rows| ==> ItemOf(more[j]) == ItemOf(rows[j])
    ensures IsWindow(more, k2, batch)
  {
    forall j | 0 <= j < |batch| ensures batch[j] == ItemOf(more[batch[0].0 - 1 + j]) {
      assert batch[j] == ItemOf(rows[batch[0].0 - 1 + j]);
    }
  }

  lemma {:induction false} PushersSurvive(s: State, k: nat, t: State, k2: nat, i: nat)
    requires Inv(s, k) && k <= k2 && |s.client| <= |t.client| && t.pushers.Keys <= s.pushers.Keys + {i}
    requires forall j :: 0 <= j < |s.client| ==> ItemOf(t.client[j]) == ItemOf(s.client[j])
    requires forall x :: x in s.server ==> x in t.server
    requires forall o :: o in t.pushers && o != i ==> o in s.pushers && t.pushers[o] == s.pushers[o]
    requires i in t.pushers ==> PusherOk(t, k2, t.pushers[i])
    ensures forall o :: o in t.pushers ==> PusherOk(t, k2, t.pushers[o])
  {
    forall o | o in t.pushers && o != i ensures PusherOk(t, k2, t.pushers[o]) {
      var p := s.pushers[o];
      if !p.Idle? { WindowGrows(s.client, k, t.client, k2, p.batch); }
    }
  }

  lemma {:induction false} FetchedIsWindow(rows: seq<Row>, k: nat)
    requires Numbered(rows) && SyncedPrefix(rows, k) && k < |rows|
    ensures IsWindow(rows, k, Limit(Unsynced(rows), BATCH_LIMIT))
  {
    UnsyncedIsSuffix(rows, k);
    var batch := Limit(Unsynced(rows), BATCH_LIMIT);
    assert batch[0] == ItemOf(rows[k]);
    forall j | 0 <= j < |batch| ensures batch[j] == ItemOf(rows[k + j]) { assert rows[k..][j] == rows[k + j]; }
  }

  /** Marking a window of rows moves the end of the synced prefix to the window's end, or leaves it. */
  lemma {:induction false} MarkedWindow(rows: seq<Row>, k: nat, batch: seq<Item>) returns (k2: nat)
    requires Numbered(rows) && SyncedPrefix(rows, k) && IsWindow(rows, k, batch)
    ensures var lo := batch[0].0 - 1;
      k2 == (if lo + |batch| > k then lo + |batch| else k) && SyncedPrefix(Marked(rows, Ids(batch)), k2)
  {
    var lo := batch[0].0 - 1;
    k2 := if lo + |batch| > k then lo + |batch| else k;
    forall j | 0 <= j < |rows| ensures rows[j].id in Ids(batch) <==> lo <= j < lo + |batch| {
      if lo <= j < lo + |batch| {
        assert batch[j - lo] == ItemOf(rows[lo + (j - lo)]);
        assert Ids(batch)[j - lo] == rows[j].id;
      }
      if rows[j].id in Ids(batch) {
        var a :| 0 <= a < |batch| && Ids(batch)[a] == rows[j].id;
        assert batch[a] == ItemOf(rows[lo + a]);
      }
    }
  }

  lemma {:induction false} RecordKeepsInv(s: State, k: nat, r: Record)
    requires Inv(s, k)
    ensures Inv(Step(s, Recorded(r)), k)
  {
    var t := Step(s, Recorded(r));
    PushersSurvive(s, k, t, k, 0);
  }

  lemma {:induction false} FetchKeepsInv(s: State, k: nat, i: nat)
    requires Inv(s, k)
    ensures Inv(Step(s, Fetch(i)), k)
  {
    var t := Step(s, Fetch(i));
    if t != s {
      UnsyncedIsSuffix(s.client, k);
      FetchedIsWindow(s.client, k);
      PushersSurvive(s, k, t, k, i);
    }
  }

  lemma {:induction false} MarkKeepsInv(s: State, k: nat, i: nat) returns (k2: nat)
    requires Inv(s, k)
    ensures Inv(Step(s, Mark(i)), k2) && k2 >= k
  {
    k2 := k;
    if PusherOf(s, i).Posted? {
      var t := Step(s, Mark(i));
      var b := PusherOf(s, i).batch;
      k2 := MarkedWindow(s.client, k, b);
      PushersSurvive(s, k, t, k2, i);
      forall j | 0 <= j < k2 ensures ItemOf(t.client[j]) in s.server {
        assert ItemOf(t.client[j]) == ItemOf(s.client[j]);
        if j >= k { assert b[j - (b[0].0 - 1)] == ItemOf(s.client[j]); }
      }
    }
  }

  /** The remaining events move one pusher and at most add to the server's log. */
  lemma {:induction false} PostKeepsInv(s: State, k: nat, e: Event)
    requires Inv(s, k) && (e.PostSeen? || e.PostUnseen? || e.PostFailed? || e.Crash?)
    ensures Inv(Step(s, e), k)
  {
    var t := Step(s, e);
    if t != s { PushersSurvive(s, k, t, k, e.who); }
  }

  /** Every step keeps the invariant, and the synced prefix never shrinks. */
  lemma {:induction false} StepKeepsInv(s: State, k: nat, e: Event) returns (k2: nat)
    requires Inv(s, k)
    ensures Inv(Step(s, e), k2) && k2 >= k
  {
    hide Step;
    hide Inv;
    k2 := k;
    match e {
      case Recorded(r) => RecordKeepsInv(s, k, r);
      case Fetch(i) => FetchKeepsInv(s, k, i);
      case Mark(i) => k2 := MarkKeepsInv(s, k, i);
      case _ => PostKeepsInv(s, k, e);
    }
  }

  lemma {:induction false} ReachableInv(events: seq<Event>) returns (k: nat)
    ensures Inv(Run(INITIAL, events), k)
  {
    if events == [] {
      k := 0;
    } else {
      k := ReachableInv(events[..|events| - 1]);
      k := StepKeepsInv(Run(INITIAL, events[..|events| - 1]), k, events[|events| - 1]);
    }
  }

  // ---------------------------------------------------------------- delivery
  function RecordedIn(events: seq<Event>): seq<Record> {
    if events == [] then []
    else RecordedIn(events[..|events| - 1])
         + (var e := events[|events| - 1]; if e.Recorded? then [e.record] else [])
  }

  lemma {:induction false} LedgerHoldsRecorded(events: seq<Event>)
    ensures Records(Items(Run(INITIAL, events).client)) == RecordedIn(events)
  {
    if events != [] {
      LedgerHoldsRecorded(events[..|events| - 1]);
      var s, t := Run(INITIAL, events[..|events| - 1]), Run(INITIAL, events);
      if events[|events| - 1].Recorded? {
        assert Records(Items(t.client)) == Records(Items(s.client)) + [events[|events| - 1].record];
      } else {
        assert Records(Items(t.client)) == Records(Items(s.client));
      }
    }
  }

  /** Under any interleaving of recorders, pushers, lost replies and crashes: the ledger holds every recorded event
      in order, the synced ids are the first k, and every event past no push is still unsynced: nothing is lost. */
  lemma {:induction false} NothingIsLost(events: seq<Event>) returns (k: nat)
    ensures var s := Run(INITIAL, events);
      && Records(Items(s.client)) == RecordedIn(events)
      && (forall j :: 0 <= j < |s.client| ==> s.client[j].id == j + 1 && (s.client[j].synced <==> s.client[j].id <= k))
      && (forall r :: r in s.client ==> !r.synced || ItemOf(r) in s.server)
  {
    k := ReachableInv(events);
    LedgerHoldsRecorded(events);
  }

  function Count(items: seq<Item>, r: Record): nat {
    if items == [] then 0 else (if items[0].1 == r then 1 else 0) + Count(items[1..], r)
  }

  lemma {:induction false} CountRemove(items: seq<Item>, j: nat, r: Record)
    requires j < |items|
    ensures Count(items, r) == Count(items[..j] + items[j + 1..], r) + if items[j].1 == r then 1 else 0
  {
    var fewer := items[..j] + items[j + 1..];
    if j == 0 {
      assert fewer == items[1..];
    } else {
      CountRemove(items[1..], j - 1, r);
      assert fewer[0] == items[0] && fewer[1..] == items[1..][..j - 1] + items[1..][j..];
    }
  }

  lemma {:induction false} CountOfDistinct(a: seq<Item>, b: seq<Item>, r: Record)
    requires (forall i, j :: 0 <= i < j < |a| ==> a[i].0 != a[j].0) && forall x :: x in a ==> x in b
    ensures Count(a, r) <= Count(b, r)
    decreases |a|
  {
    if a != [] {
      assert a[0] in a;
      var j :| 0 <= j < |b| && b[j] == a[0];
      var fewer := b[..j] + b[j + 1..];
      CountRemove(b, j, r);
      forall x | x in a[1..] ensures x in fewer {
        var m :| 1 <= m < |a| && a[m] == x;
        assert a[m] in a && a[m].0 != a[0].0;
        var i :| 0 <= i < |b| && b[i] == x;
        if i < j { assert fewer[i] == x; } else { assert fewer[i - 1] == x; }
      }
      CountOfDistinct(a[1..], fewer, r);
    }
  }

  /** The server holds every record at least as often as it is synced on the client, whose synced rows are the first k. */
  lemma {:induction false} SyncedIsDelivered(events: seq<Event>) returns (k: nat)
    ensures var s := Run(INITIAL, events);
      && k <= |s.client|
      && (forall j :: 0 <= j < |s.client| ==> (s.client[j].synced <==> j < k))
      && (forall r :: Count(Items(s.client[..k]), r) <= Count(s.server, r))
  {
    k := ReachableInv(events);
    var s := Run(INITIAL, events);
    forall r ensures Count(Items(s.client[..k]), r) <= Count(s.server, r) {
      CountOfDistinct(Items(s.client[..k]), s.server, r);
    }
  }

  // ---------------------------------------------------------------- one pusher
  predicate OnePusher(events: seq<Event>) { forall e :: e in events ==> e.Recorded? || e.who == 0 }

  /** The server ingests a batch. */
  predicate Ingests(s: State, e: Event) { (e.PostSeen? || e.PostUnseen?) && PusherOf(s, e.who).Fetched? }

  /** A batch the server ingested will not be marked: its reply is not seen, or the pusher dies before marking. */
  predicate LosesMark(s: State, e: Event) {
    || (e.PostUnseen? && PusherOf(s, e.who).Fetched?)
    || (e.Crash? && PusherOf(s, e.who).Posted?)
  }

  predicate IngestsAt(events: seq<Event>, i: nat) { i < |events| && Ingests(Run(INITIAL, events[..i]), events[i]) }

  predicate LosesMarkAt(events: seq<Event>, i: nat) { i < |events| && LosesMark(Run(INITIAL, events[..i]), events[i]) }

  ghost predicate LosesAMark(events: seq<Event>) { exists i: nat :: LosesMarkAt(events, i) }

  ghost predicate IngestsAfterLoss(events: seq<Event>) {
    exists i: nat, j: nat :: i < j && LosesMarkAt(events, i) && IngestsAt(events, j)
  }

  datatype Delivery = Exact | MarkLost | Repeated

  function AfterEvent(d: Delivery, s: State, e: Event): Delivery {
    if Ingests(s, e) && d != Exact then Repeated else if LosesMark(s, e) && d == Exact then MarkLost else d
  }

  function DeliveryOf(events: seq<Event>): Delivery {
    if events == [] then Exact
    else
      var init := events[..|events| - 1];
      AfterEvent(DeliveryOf(init), Run(INITIAL, init), events[|events| - 1])
  }

  lemma {:induction false} SamePast(events: seq<Event>, n: nat, i: nat)
    requires i < n <= |events|
    ensures LosesMarkAt(events[..n], i) <==> LosesMarkAt(events, i)
    ensures IngestsAt(events[..n], i) <==> IngestsAt(events, i)
  {
    assert events[..n][..i] == events[..i] && events[..n][i] == events[i];
  }

  lemma {:induction false} LossSnoc(events: seq<Event>, n: nat)
    requires n + 1 == |events|
    ensures LosesAMark(events) <==> LosesAMark(events[..n]) || LosesMarkAt(events, n)
  {
    hide LosesMark;
    hide Run;
    if i: nat :| LosesMarkAt(events[..n], i) { SamePast(events, n, i); }
    if i: nat :| LosesMarkAt(events, i) { if i < n { SamePast(events, n, i); } }
  }

  lemma {:induction false} IngestSnoc(events: seq<Event>, n: nat)
    requires n + 1 == |events|
    ensures IngestsAfterLoss(events) <==>
              IngestsAfterLoss(events[..n]) || (LosesAMark(events[..n]) && IngestsAt(events, n))
  {
    hide LosesMark;
    hide Ingests;
    hide Run;
    var init := events[..n];
    if i: nat, j: nat :| i < j && LosesMarkAt(init, i) && IngestsAt(init, j) {
      SamePast(events, n, i);
      SamePast(events, n, j);
    }
    if i: nat :| LosesMarkAt(init, i) { SamePast(events, n, i); }
    if i: nat, j: nat :| i < j && LosesMarkAt(events, i) && IngestsAt(events, j) {
      SamePast(events, n, i);
      if j < n { SamePast(events, n, j); }
    }
  }

  lemma {:induction false} DeliveryMeaning(events: seq<Event>)
    ensures DeliveryOf(events) == Exact <==> !LosesAMark(events)
    ensures DeliveryOf(events) == Repeated <==> IngestsAfterLoss(events)
  {
    if events != [] {
      var n := |events| - 1;
      DeliveryMeaning(events[..n]);
      LossSnoc(events, n);
      IngestSnoc(events, n);
      hide LosesAMark;
      hide IngestsAfterLoss;
      hide Run;
      hide LosesMark;
      hide Ingests;
    }
  }

  predicate DistinctIds(items: seq<Item>) { forall i, j :: 0 <= i < j < |items| ==> items[i].0 != items[j].0 }

  /** While nothing is repeated, the server holds the first rows of the ledger, and k of them are synced. */
  predicate HoldsPrefix(s: State, k: nat, d: Delivery) {
    var p, m := PusherOf(s, 0), |s.server|;
    && m <= |s.client| && s.server == Items(s.client[..m])
    && (p.Fetched? || p.Posted? ==> p.batch != [] && p.batch[0].0 == k + 1)
    && if d == Exact then m == k + if p.Posted? then |p.batch| else 0 else m > k && !p.Posted?
  }

  predicate SingleInv(s: State, k: nat, d: Delivery) {
    Inv(s, k) && if d == Repeated then !DistinctIds(s.server) else HoldsPrefix(s, k, d)
  }

  lemma {:induction false} SingleStep(s: State, k: nat, d: Delivery, e: Event) returns (k2: nat)
    requires SingleInv(s, k, d) && (e.Recorded? || e.who == 0)
    ensures SingleInv(Step(s, e), k2, AfterEvent(d, s, e))
  {
    k2 := StepKeepsInv(s, k, e);
    if d == Repeated {
      RepeatStays(s, e);
    } else if Ingests(s, e) {
      SingleIngest(s, k, d, e, k2);
    } else if e.Mark? && PusherOf(s, 0).Posted? {
      SingleMark(s, k, k2);
    } else {
      SingleQuiet(s, k, d, e, k2);
    }
  }

  lemma {:induction false} RepeatStays(s: State, e: Event)
    requires !DistinctIds(s.server)
    ensures !DistinctIds(Step(s, e).server)
  {
    var i, j :| 0 <= i < j < |s.server| && s.server[i].0 == s.server[j].0;
    assert Step(s, e).server[i] == s.server[i] && Step(s, e).server[j] == s.server[j];
  }

  lemma {:induction false} SingleIngest(s: State, k: nat, d: Delivery, e: Event, k2: nat)
    requires Inv(s, k) && d != Repeated && HoldsPrefix(s, k, d) && Ingests(s, e) && e.who == 0
    requires Inv(Step(s, e), k2)
    ensures SingleInv(Step(s, e), k2, AfterEvent(d, s, e))
  {
    var t, b, m := Step(s, e), PusherOf(s, 0).batch, |s.server|;
    SamePrefix(s.client, k, t.client, k2);
    assert t.server == s.server + b && t.client == s.client;
    if d == Exact {
      forall j | 0 <= j < |b| ensures b[j] == ItemOf(s.client[k + j]) { assert b[j] == ItemOf(s.client[b[0].0 - 1 + j]); }
      assert t.server == Items(s.client[..m + |b|]);
    } else {
      assert t.server[k] == ItemOf(s.client[k]) && t.server[m] == b[0] == ItemOf(s.client[b[0].0 - 1 + 0]);
    }
  }

  lemma {:induction false} SingleMark(s: State, k: nat, k2: nat)
    requires Inv(s, k) && HoldsPrefix(s, k, Exact) && PusherOf(s, 0).Posted? && Inv(Step(s, Mark(0)), k2)
    ensures HoldsPrefix(Step(s, Mark(0)), k2, Exact)
  {
    var t, b, m := Step(s, Mark(0)), PusherOf(s, 0).batch, |s.server|;
    var marked := MarkedWindow(s.client, k, b);
    SamePrefix(t.client, marked, t.client, k2);
    assert Items(t.client[..m]) == Items(s.client[..m]);
  }

  // An event that neither ingests nor marks leaves the server's log and the synced prefix alone.
  lemma {:induction false} SingleQuiet(s: State, k: nat, d: Delivery, e: Event, k2: nat)
    requires Inv(s, k) && d != Repeated && HoldsPrefix(s, k, d) && !Ingests(s, e) && (e.Recorded? || e.who == 0)
    requires !(e.Mark? && PusherOf(s, 0).Posted?) && Inv(Step(s, e), k2)
    ensures HoldsPrefix(Step(s, e), k2, AfterEvent(d, s, e))
  {
    var t, m := Step(s, e), |s.server|;
    SamePrefix(s.client, k, t.client, k2);
    assert t.server == s.server && t.client[..m] == s.client[..m];
    if e.Fetch? {
      UnsyncedIsSuffix(s.client, k);
      if t != s { assert Unsynced(s.client)[0] == Items(s.client[k..])[0] == ItemOf(s.client[k]); }
    }
  }

  lemma {:induction false} SingleRun(events: seq<Event>) returns (k: nat)
    requires OnePusher(events)
    ensures SingleInv(Run(INITIAL, events), k, DeliveryOf(events))
  {
    if events == [] {
      k := 0;
      assert Items(INITIAL.client[..0]) == [];
    } else {
      var init, e := events[..|events| - 1], events[|events| - 1];
      assert e in events && forall x :: x in init ==> x in events;
      k := SingleRun(init);
      k := SingleStep(Run(INITIAL, init), k, DeliveryOf(init), e);
    }
  }

  /** With one pusher the server holds a record twice exactly when a batch is ingested after a lost mark. */
  lemma {:induction false} RepeatsIff(events: seq<Event>)
    requires OnePusher(events)
    ensures DistinctIds(Run(INITIAL, events).server) <==> !IngestsAfterLoss(events)
  {
    var k := SingleRun(events);
    DeliveryMeaning(events);
  }

  /** With one pusher, whenever it is idle, the server holds the synced events exactly once each, in order, exactly
      when no mark was ever lost. */
  lemma {:induction false} ExactlyOnce(events: seq<Event>) returns (k: nat)
    requires OnePusher(events) && PusherOf(Run(INITIAL, events), 0).Idle?
    ensures var s := Run(INITIAL, events);
            && SyncedPrefix(s.client, k)
            && (s.server == Items(s.client[..k]) <==> !LosesAMark(events))
  {
    k := SingleRun(events);
    DeliveryMeaning(events);
    PrefixDistinct(Run(INITIAL, events).client, k);
  }

  lemma {:induction false} PrefixDistinct(rows: seq<Row>, k: nat)
    requires Numbered(rows) && k <= |rows|
    ensures DistinctIds(Items(rows[..k]))
  {
    var items := Items(rows[..k]);
    forall i, j | 0 <= i < j < |items| ensures items[i].0 != items[j].0 { assert items[i] == ItemOf(rows[i]) && items[j] == ItemOf(rows[j]); }
  }

  /** One event recorded, a reply lost, and the next heartbeat: the server holds the event twice. */
  lemma {:induction false} LostReplyRepeats(r: Record)
    ensures Run(INITIAL, [Recorded(r), Fetch(0), PostUnseen(0), Fetch(0), PostSeen(0)]).server == [(1, r), (1, r)]
  {
    var row, item := Row(1, r, false), (1, r);
    var s1 := State([row], [], map[]);
    assert Step(INITIAL, Recorded(r)) == s1;
    assert Unsynced([row]) == [item] by { assert [row][..0] == [] && Unsynced([]) == []; }
    var s2 := State([row], [], map[0 := Fetched([item])]);
    assert Step(s1, Fetch(0)) == s2;
    var s3 := State([row], [item], map[0 := Idle]);
    assert Step(s2, PostUnseen(0)) == s3;
    var s4 := State([row], [item], map[0 := Fetched([item])]);
    assert Step(s3, Fetch(0)) == s4;
    assert Step(s4, PostSeen(0)).server == [item] + [item];
    RunFive(INITIAL, Recorded(r), Fetch(0), PostUnseen(0), Fetch(0), PostSeen(0));
  }

  lemma {:induction false} RunFive(s: State, a: Event, b: Event, c: Event, d: Event, e: Event)
    ensures Run(s, [a, b, c, d, e]) == Step(Step(Step(Step(Step(s, a), b), c), d), e)
  {
    hide Step;
    var all := [a, b, c, d, e];
    assert all[..4] == [a, b, c, d] && all[..4][..3] == [a, b, c] && [a, b, c][..2] == [a, b] && [a, b][..1] == [a] && [a][..0] == [];
    assert Run(s, []) == s;
    assert Run(s, [a]) == Step(s, a);
    assert Run(s, [a, b]) == Step(Run(s, [a]), b);
    assert Run(s, [a, b, c]) == Step(Run(s, [a, b]), c);
    assert Run(s, [a, b, c, d]) == Step(Run(s, [a, b, c]), d);
  }

  lemma {:induction false} SamePrefix(a: seq<Row>, k: nat, b: seq<Row>, k2: nat)
    requires SyncedPrefix(a, k) && SyncedPrefix(b, k2) && a <= b && (|a| < |b| ==> !b[|a|].synced)
    ensures k == k2 && a[..k] == b[..k]
  {
    if k < |a| { assert b[k] == a[k]; }
    if k > 0 { assert b[k - 1] == a[k - 1]; }
  }

  // ---------------------------------------------------------------- progress
  function Heartbeat(i: nat): seq<Event> { [Fetch(i), PostSeen(i), Mark(i)] }

  function Heartbeats(i: nat, n: nat): seq<Event> { if n == 0 then [] else Heartbeats(i, n - 1) + Heartbeat(i) }

  lemma {:induction false} RunConcat(s: State, a: seq<Event>, b: seq<Event>)
    ensures Run(s, a + b) == Run(Run(s, a), b)
  {
    if b == [] {
      assert a + b == a;
    } else {
      var n := |a + b| - 1;
      assert (a + b)[..n] == a + b[..|b| - 1];
      RunConcat(s, a, b[..|b| - 1]);
    }
  }

  lemma {:induction false} BeatIsThreeSteps(s: State, i: nat)
    ensures Run(s, Heartbeat(i)) == Step(Step(Step(s, Fetch(i)), PostSeen(i)), Mark(i))
  {
    hide Step;
    var beat := Heartbeat(i);
    assert beat[..2] == [Fetch(i), PostSeen(i)] && beat[..2][..1] == [Fetch(i)] && [Fetch(i)][..0] == [];
    assert Run(s, []) == s;
    assert Run(s, beat[..2][..1]) == Step(s, Fetch(i));
    assert Run(s, beat[..2]) == Step(Step(s, Fetch(i)), PostSeen(i));
  }

  lemma {:induction false} OneBeat(s: State, k: nat, i: nat) returns (k2: nat)
    requires Inv(s, k) && PusherOf(s, i).Idle?
    ensures var t := Run(s, Heartbeat(i));
      && PusherOf(t, i).Idle? && Inv(t, k2)
      && |Unsynced(t.client)| == if |Unsynced(s.client)| > BATCH_LIMIT then |Unsynced(s.client)| - BATCH_LIMIT else 0
  {
    BeatIsThreeSteps(s, i);
    hide Run;
    var a := Step(s, Fetch(i));
    var b := Step(a, PostSeen(i));
    var t := Step(b, Mark(i));
    UnsyncedIsSuffix(s.client, k);
    FetchKeepsInv(s, k, i);
    PostKeepsInv(a, k, PostSeen(i));
    k2 := MarkKeepsInv(b, k, i);
    UnsyncedIsSuffix(t.client, k2);
    if k < |s.client| { BeatMarks(s, k, i, k2); }
  }

  lemma {:induction false} BeatMarks(s: State, k: nat, i: nat, k2: nat)
    requires Inv(s, k) && PusherOf(s, i).Idle? && k < |s.client|
    requires var t := Step(Step(Step(s, Fetch(i)), PostSeen(i)), Mark(i)); Inv(t, k2)
    ensures var t := Step(Step(Step(s, Fetch(i)), PostSeen(i)), Mark(i));
      && PusherOf(t, i).Idle? && |t.client| == |s.client|
      && k2 == if |s.client| - k > BATCH_LIMIT then k + BATCH_LIMIT else |s.client|
  {
    var b := Step(Step(s, Fetch(i)), PostSeen(i));
    var t := Step(b, Mark(i));
    UnsyncedIsSuffix(s.client, k);
    FetchedIsWindow(s.client, k);
    var batch := Limit(Unsynced(s.client), BATCH_LIMIT);
    assert batch[0] == Items(s.client[k..])[0] == ItemOf(s.client[k]);
    hide IsWindow;
    hide PusherOk;
    assert b.client == s.client && PusherOf(b, i) == Posted(batch);
    var m := MarkedWindow(s.client, k, batch);
    SamePrefix(t.client, m, t.client, k2);
  }

  /** Undisturbed heartbeats drain the ledger, a hundred events at a time. */
  lemma {:induction false} HeartbeatsDrain(s: State, k: nat, i: nat, n: nat)
    requires Inv(s, k) && PusherOf(s, i).Idle?
    ensures var t := Run(s, Heartbeats(i, n));
      && PusherOf(t, i).Idle? && (exists k2 :: Inv(t, k2))
      && |Unsynced(t.client)| == (if |Unsynced(s.client)| > 100 * n then |Unsynced(s.client)| - 100 * n else 0)
  {
    if n > 0 {
      HeartbeatsDrain(s, k, i, n - 1);
      var m := Run(s, Heartbeats(i, n - 1));
      var k2 :| Inv(m, k2);
      var k3 := OneBeat(m, k2, i);
      RunConcat(s, Heartbeats(i, n - 1), Heartbeat(i));
    }
  }
}

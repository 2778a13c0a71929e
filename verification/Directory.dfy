/**
 The service registry with time to live of services/directory/index.js, and the heartbeats
 that keep an entry alive (lib/nz-lib.js, lines 40 to 62). Times are milliseconds.
 */
module Directory {
  import opened Results
  import opened Sequences

  /**
   ref tells apart the objects created; random ids could repeat. A heartbeat may leave ttl
   undefined, and then no comparison with it succeeds.
   */
  datatype Entry = Entry(ref: nat, id: string, role: string, url: string, ts: int, ttl: Option<int>)

  const MAX_SERVICES: nat := 200
  const DEFAULT_TTL: int := 10000

  predicate Fresh(ts: int, ttl: Option<int>, now: int) {
    ttl.None? || now - ts <= ttl.value
  }

  predicate Expired(e: Entry, now: int) {
    !Fresh(e.ts, e.ttl, now)
  }

  function Registered(s: seq<Entry>, e: Entry): seq<Entry> {
    if |s| + 1 > MAX_SERVICES then s[1..] + [e] else s + [e]
  }

  /** The first entry for a role and a url. */
  function Find(s: seq<Entry>, role: string, url: string): Option<Entry> {
    if s == [] then None
    else if s[0].role == role && s[0].url == url then Some(s[0])
    else Find(s[1..], role, url)
  }

  /** A heartbeat refreshes the first entry for its role and url. */
  function Beat(s: seq<Entry>, role: string, url: string, ttl: Option<int>, now: int): seq<Entry> {
    if s == [] then []
    else if s[0].role == role && s[0].url == url then [s[0].(ts := now, ttl := ttl)] + s[1..]
    else [s[0]] + Beat(s[1..], role, url, ttl, now)
  }

  function Live(s: seq<Entry>, now: int): seq<Entry> {
    if s == [] then [] else (if Expired(s[0], now) then [] else [s[0]]) + Live(s[1..], now)
  }

  function Removed(s: seq<Entry>, id: string): seq<Entry> {
    if s == [] then [] else if s[0].id == id then s[1..] else [s[0]] + Removed(s[1..], id)
  }

  /** An object keyed by role. */
  function Listing(s: seq<Entry>): map<string, Entry> {
    if s == [] then map[] else Listing(s[..|s| - 1])[s[|s| - 1].role := s[|s| - 1]]
  }

  class Registry {
    var services: seq<Entry>
    var created: nat

    constructor ()
      ensures services == [] && created == 0
    {
      services, created := [], 0;
    }

    method RegisterService(id: string, role: string, url: string, now: int) returns (e: Entry)
      modifies this
      ensures e == Entry(old(created), id, role, url, now, Some(DEFAULT_TTL))
      ensures services == Registered(old(services), e) && created == old(created) + 1
    {
      e := Entry(created, id, role, url, now, Some(DEFAULT_TTL));
      created := created + 1;
      services := services + [e];
      if |services| > MAX_SERVICES {
        assert services[1..] == old(services)[1..] + [e];
        services := services[1..];
      }
    }

    method UpdateHeartbeat(role: string, url: string, ttl: Option<int>, now: int) returns (ok: bool)
      modifies this
      ensures services == Beat(old(services), role, url, ttl, now) && created == old(created)
      ensures ok == Find(services, role, url).Some?
      ensures ok ==> Find(services, role, url).value.ts == now
    {
      var i := 0;
      while i < |services| && !(services[i].role == role && services[i].url == url)
        invariant 0 <= i <= |services|
        invariant forall k :: 0 <= k < i ==> !(services[k].role == role && services[k].url == url)
      {
        i := i + 1;
      }
      BeatAt(services, role, url, ttl, now, i);
      BeatIsFound(services, role, url, ttl, now);
      ok := i < |services|;
      if ok {
        services := services[i := services[i].(ts := now, ttl := ttl)];
      }
    }

    /** Entries are spliced out of the array from its end to its start. */
    method CleanupExpired(now: int)
      modifies this
      ensures services == Live(old(services), now) && created == old(created)
    {
      ghost var before := services;
      var i := |services| - 1;
      while i >= 0
        invariant -1 <= i < |before| && created == old(created)
        invariant services == before[..i + 1] + Live(before[i + 1..], now)
      {
        var s := services[i];
        assert s == before[i] && before[i..][1..] == before[i + 1..];
        assert before[..i + 1] == before[..i] + [s];
        if s.ttl.Some? && now - s.ts > s.ttl.value {
          services := services[..i] + services[i + 1..];
        }
        i := i - 1;
      }
      assert before[0..] == before;
    }

    method ListServices() returns (out: map<string, Entry>)
      ensures out == Listing(services)
    {
      out := map[];
      for i := 0 to |services|
        invariant out == Listing(services[..i])
      {
        assert services[..i + 1][..i] == services[..i];
        out := out[services[i].role := services[i]];
      }
      assert services[..|services|] == services;
    }

    method RemoveService(id: string)
      modifies this
      ensures services == Removed(old(services), id) && created == old(created)
    {
      var i := 0;
      while i < |services| && services[i].id != id
        invariant 0 <= i <= |services|
        invariant forall k :: 0 <= k < i ==> services[k].id != id
      {
        i := i + 1;
      }
      RemovedAt(services, id, i);
      if i < |services| {
        services := services[..i] + services[i + 1..];
      }
    }
  }

  lemma {:induction false} BeatAt(s: seq<Entry>, role: string, url: string, ttl: Option<int>, now: int, i: nat)
    requires i <= |s| && forall k :: 0 <= k < i ==> !(s[k].role == role && s[k].url == url)
    requires i < |s| ==> s[i].role == role && s[i].url == url
    ensures Beat(s, role, url, ttl, now) == if i < |s| then s[i := s[i].(ts := now, ttl := ttl)] else s
    ensures Find(s, role, url).Some? <==> i < |s|
  {
    if i > 0 { BeatAt(s[1..], role, url, ttl, now, i - 1); }
  }

  lemma {:induction false} RemovedAt(s: seq<Entry>, id: string, i: nat)
    requires i <= |s| && (forall k :: 0 <= k < i ==> s[k].id != id) && (i < |s| ==> s[i].id == id)
    ensures Removed(s, id) == Without(s, i)
  {
    if i > 0 {
      assert Removed(s, id) == [s[0]] + Removed(s[1..], id);
      hide Removed, Without;
      RemovedAt(s[1..], id, i - 1);
      WithoutLater(s, i);
    }
  }

  /** A role lists its last entry, if it has one: the entry before n, if n is not 0. */
  lemma {:induction false} LastIsListed(s: seq<Entry>, role: string, n: nat)
    requires n <= |s| && (forall j :: n <= j < |s| ==> s[j].role != role) && (n > 0 ==> s[n - 1].role == role)
    ensures if n > 0 then role in Listing(s) && Listing(s)[role] == s[n - 1] else role !in Listing(s)
  {
    if |s| > n { LastIsListed(s[..|s| - 1], role, n); }
  }

  // ----- Runs -----

  datatype Op =
    | Register(id: string, role: string, url: string)
    | Heartbeat(role: string, url: string, ttl: Option<int>)
    | Cleanup
    | Remove(id: string)

  datatype Call = Call(now: int, op: Op)

  datatype World = World(services: seq<Entry>, created: nat)

  function Exec(w: World, c: Call): World {
    match c.op
    case Register(id, role, url) =>
      World(Registered(w.services, Entry(w.created, id, role, url, c.now, Some(DEFAULT_TTL))), w.created + 1)
    case Heartbeat(role, url, ttl) => w.(services := Beat(w.services, role, url, ttl, c.now))
    case Cleanup => w.(services := Live(w.services, c.now))
    case Remove(id) => w.(services := Removed(w.services, id))
  }

  function Run(w: World, calls: seq<Call>): World
    decreases calls
  {
    if calls == [] then w else Run(Exec(w, calls[0]), calls[1..])
  }

  // ----- What each call does to the entry first for its role and url -----

  lemma {:induction false} FindAppend(s: seq<Entry>, e: Entry, role: string, url: string)
    requires Find(s, role, url).Some?
    ensures Find(s + [e], role, url) == Find(s, role, url)
  {
    assert (s + [e])[1..] == s[1..] + [e];
    if !(s[0].role == role && s[0].url == url) { FindAppend(s[1..], e, role, url); }
  }

  lemma {:induction false} BeatIsFound(s: seq<Entry>, role: string, url: string, ttl: Option<int>, now: int)
    ensures Find(Beat(s, role, url, ttl, now), role, url)
      == if Find(s, role, url).Some? then Some(Find(s, role, url).value.(ts := now, ttl := ttl)) else None
  {
    if s != [] { BeatIsFound(s[1..], role, url, ttl, now); }
  }

  lemma {:induction false} OtherBeat(s: seq<Entry>, r: string, u: string, ttl: Option<int>, now: int,
                                     role: string, url: string)
    requires r != role || u != url
    ensures Find(Beat(s, r, u, ttl, now), role, url) == Find(s, role, url)
  {
    if s != [] { OtherBeat(s[1..], r, u, ttl, now, role, url); }
  }

  /** A sweep keeps the first entry for a role and url just when it is fresh. */
  lemma {:induction false} SweepKeepsFresh(s: seq<Entry>, now: int, role: string, url: string)
    requires Find(s, role, url).Some? && !Expired(Find(s, role, url).value, now)
    ensures Find(Live(s, now), role, url) == Find(s, role, url)
  {
    if !(s[0].role == role && s[0].url == url) {
      SweepKeepsFresh(s[1..], now, role, url);
      assert [] + Live(s[1..], now) == Live(s[1..], now);
    }
  }

  /** A sweep leaves exactly the entries that have not expired. */
  lemma {:induction false} LiveMembers(s: seq<Entry>, now: int)
    ensures forall e :: e in Live(s, now) <==> e in s && !Expired(e, now)
  {
    if s != [] {
      LiveMembers(s[1..], now);
      assert s == [s[0]] + s[1..];
    }
  }

  /** The entry that removal by id would take. */
  function FindId(s: seq<Entry>, id: string): Option<Entry> {
    if s == [] then None else if s[0].id == id then Some(s[0]) else FindId(s[1..], id)
  }

  lemma {:induction false} RemovedKeepsOthers(s: seq<Entry>, id: string, role: string, url: string)
    requires Find(s, role, url).Some? && FindId(s, id) != Find(s, role, url)
    ensures Find(Removed(s, id), role, url) == Find(s, role, url)
  {
    if s[0].id != id && !(s[0].role == role && s[0].url == url) {
      RemovedKeepsOthers(s[1..], id, role, url);
    }
  }

  // ----- Survival -----

  ghost predicate Holds(s: seq<Entry>, ref: nat) {
    exists i :: 0 <= i < |s| && s[i].ref == ref
  }

  /** Entries are different objects. */
  ghost predicate Distinct(w: World) {
    && (forall i :: 0 <= i < |w.services| ==> w.services[i].ref < w.created)
    && forall i, j :: 0 <= i < j < |w.services| ==> w.services[i].ref < w.services[j].ref
  }

  /** The call takes the entry off for another reason than its age. */
  predicate Displaces(s: seq<Entry>, op: Op, ref: nat) {
    match op
    case Register(_, _, _) => |s| >= MAX_SERVICES && s != [] && s[0].ref == ref
    case Remove(id) => FindId(s, id).Some? && FindId(s, id).value.ref == ref
    case _ => false
  }

  ghost predicate Undisturbed(w: World, calls: seq<Call>, ref: nat)
    decreases calls
  {
    calls != [] ==> !Displaces(w.services, calls[0].op, ref) && Undisturbed(Exec(w, calls[0]), calls[1..], ref)
  }

  predicate Refreshes(op: Op, role: string, url: string) {
    op.Heartbeat? && op.role == role && op.url == url
  }

  /** Every sweep comes within the time to live of the last refresh before it. */
  predicate SweepsInTime(calls: seq<Call>, role: string, url: string, ts: int, ttl: Option<int>) {
    calls != [] ==>
      if Refreshes(calls[0].op, role, url) then SweepsInTime(calls[1..], role, url, calls[0].now, calls[0].op.ttl)
      else (calls[0].op.Cleanup? ==> Fresh(ts, ttl, calls[0].now)) && SweepsInTime(calls[1..], role, url, ts, ttl)
  }

  lemma {:induction false} BeatRefs(s: seq<Entry>, role: string, url: string, ttl: Option<int>, now: int)
    ensures var t := Beat(s, role, url, ttl, now); |t| == |s| && forall i :: 0 <= i < |s| ==> t[i].ref == s[i].ref
  {
    if s != [] { BeatRefs(s[1..], role, url, ttl, now); }
  }

  ghost predicate Ordered(s: seq<Entry>) {
    forall i, j :: 0 <= i < j < |s| ==> s[i].ref < s[j].ref
  }

  lemma OrderedCons(e: Entry, rest: seq<Entry>)
    requires Ordered(rest) && forall i :: 0 <= i < |rest| ==> e.ref < rest[i].ref
    ensures Ordered([e] + rest)
  {
  }

  lemma {:induction false} LiveRefs(s: seq<Entry>, now: int)
    requires Ordered(s)
    ensures Ordered(Live(s, now)) && forall e :: e in Live(s, now) ==> e in s
  {
    LiveMembers(s, now);
    if s != [] {
      var rest := Live(s[1..], now);
      LiveRefs(s[1..], now);
      forall i | 0 <= i < |rest| ensures s[0].ref < rest[i].ref {
        assert rest[i] in s[1..];
      }
      OrderedCons(s[0], rest);
      assert [] + rest == rest;
    }
  }

  lemma {:induction false} RemovedRefs(s: seq<Entry>, id: string)
    requires Ordered(s)
    ensures Ordered(Removed(s, id)) && forall e :: e in Removed(s, id) ==> e in s
  {
    if s != [] && s[0].id != id {
      var rest := Removed(s[1..], id);
      RemovedRefs(s[1..], id);
      forall i | 0 <= i < |rest| ensures s[0].ref < rest[i].ref {
        assert rest[i] in s[1..];
      }
      OrderedCons(s[0], rest);
    }
  }

  lemma RefsKept(w: World, c: Call)
    requires Distinct(w)
    ensures Distinct(Exec(w, c))
    ensures forall r: nat :: r < w.created && Holds(Exec(w, c).services, r) ==> Holds(w.services, r)
  {
    hide Beat, Live, Removed;
    var s := w.services;
    match c.op
    case Register(id, role, url) =>
      RegisteredRefs(w, Entry(w.created, id, role, url, c.now, Some(DEFAULT_TTL)));
    case Heartbeat(role, url, ttl) =>
      BeatRefs(s, role, url, ttl, c.now);
    case Cleanup =>
      LiveRefs(s, c.now);
      SubsetRefs(s, Live(s, c.now));
    case Remove(id) =>
      RemovedRefs(s, id);
      SubsetRefs(s, Removed(s, id));
  }

  lemma RegisteredRefs(w: World, e: Entry)
    requires Distinct(w) && e.ref == w.created
    ensures Distinct(World(Registered(w.services, e), w.created + 1))
    ensures forall r: nat :: r < w.created && Holds(Registered(w.services, e), r) ==> Holds(w.services, r)
  {
    var s := w.services;
    var kept := if |s| + 1 > MAX_SERVICES then s[1..] else s;
    assert Registered(s, e) == kept + [e];
    assert forall x :: x in kept ==> x in s;
    forall r: nat | r < w.created && Holds(kept + [e], r) ensures Holds(s, r) {
      var i :| 0 <= i < |kept + [e]| && (kept + [e])[i].ref == r;
      assert kept[i] in kept && kept[i] in s;
    }
  }

  lemma SubsetRefs(s: seq<Entry>, t: seq<Entry>)
    requires forall e :: e in t ==> e in s
    ensures forall i :: 0 <= i < |t| ==> Holds(s, t[i].ref)
  {
    forall i | 0 <= i < |t| ensures Holds(s, t[i].ref) {
      assert t[i] in t;
      var j :| 0 <= j < |s| && s[j] == t[i];
      assert s[j].ref == t[i].ref;
    }
  }

  /** Once gone, an entry stays gone. */
  lemma {:induction false} GoneStaysGone(w: World, calls: seq<Call>, ref: nat)
    requires Distinct(w) && ref < w.created && !Holds(w.services, ref)
    ensures !Holds(Run(w, calls).services, ref)
    decreases calls
  {
    if calls != [] {
      RefsKept(w, calls[0]);
      GoneStaysGone(Exec(w, calls[0]), calls[1..], ref);
    }
  }

  lemma {:induction false} FoundIsHeld(s: seq<Entry>, role: string, url: string)
    requires Find(s, role, url).Some?
    ensures Find(s, role, url).value in s && Holds(s, Find(s, role, url).value.ref)
  {
    if s[0].role == role && s[0].url == url {
      assert s[0].ref == Find(s, role, url).value.ref;
    } else {
      FoundIsHeld(s[1..], role, url);
      var e := Find(s, role, url).value;
      var i :| 0 <= i < |s[1..]| && s[1..][i] == e;
      assert s[i + 1].ref == e.ref;
    }
  }

  lemma {:induction false} StaleIsSwept(w: World, now: int, role: string, url: string)
    requires Distinct(w) && Find(w.services, role, url).Some? && Expired(Find(w.services, role, url).value, now)
    ensures !Holds(Live(w.services, now), Find(w.services, role, url).value.ref)
  {
    var s, e := w.services, Find(w.services, role, url).value;
    FoundIsHeld(s, role, url);
    LiveMembers(s, now);
    var t := Live(s, now);
    forall i | 0 <= i < |t| ensures t[i].ref != e.ref {
      assert t[i] in s;
    }
  }

  /** The first entry for a role and url after a call that neither displaces nor sweeps it. */
  lemma StepKeepsFirst(w: World, c: Call, e: Entry)
    requires Find(w.services, e.role, e.url) == Some(e) && !Displaces(w.services, c.op, e.ref)
    requires c.op.Cleanup? ==> !Expired(e, c.now)
    ensures Find(Exec(w, c).services, e.role, e.url)
      == Some(if Refreshes(c.op, e.role, e.url) then e.(ts := c.now, ttl := c.op.ttl) else e)
  {
    var s := w.services;
    match c.op
    case Register(id, r, u) =>
      var n := Entry(w.created, id, r, u, c.now, Some(DEFAULT_TTL));
      FindAppend(if |s| + 1 > MAX_SERVICES then s[1..] else s, n, e.role, e.url);
    case Heartbeat(r, u, ttl) =>
      if r == e.role && u == e.url {
        BeatIsFound(s, r, u, ttl, c.now);
      } else {
        OtherBeat(s, r, u, ttl, c.now, e.role, e.url);
      }
    case Cleanup => SweepKeepsFresh(s, c.now, e.role, e.url);
    case Remove(id) => RemovedKeepsOthers(s, id, e.role, e.url);
  }

  /**
   In every run that does not otherwise displace it, the first entry for a role and url is still
   there at the end if and only if each sweep came within its time to live.
   */
  lemma {:induction false} SurvivesIffSweepsInTime(w: World, calls: seq<Call>, e: Entry)
    requires Distinct(w) && Find(w.services, e.role, e.url) == Some(e) && Undisturbed(w, calls, e.ref)
    ensures Holds(Run(w, calls).services, e.ref) <==> SweepsInTime(calls, e.role, e.url, e.ts, e.ttl)
    decreases calls
  {
    FoundIsHeld(w.services, e.role, e.url);
    if calls != [] {
      var c := calls[0];
      RefsKept(w, c);
      if c.op.Cleanup? && Expired(e, c.now) {
        StaleIsSwept(w, c.now, e.role, e.url);
        GoneStaysGone(Exec(w, c), calls[1..], e.ref);
      } else {
        StepKeepsFirst(w, c, e);
        var f := if Refreshes(c.op, e.role, e.url) then e.(ts := c.now, ttl := c.op.ttl) else e;
        SurvivesIffSweepsInTime(Exec(w, c), calls[1..], f);
      }
    }
  }

  /** Each refresh, and the end of the run, comes within the time to live of the refresh before. */
  predicate RefreshedInTime(calls: seq<Call>, role: string, url: string, ts: int, ttl: Option<int>, end: int) {
    if calls == [] then Fresh(ts, ttl, end)
    else if Refreshes(calls[0].op, role, url) then
      Fresh(ts, ttl, calls[0].now) && RefreshedInTime(calls[1..], role, url, calls[0].now, calls[0].op.ttl, end)
    else RefreshedInTime(calls[1..], role, url, ts, ttl, end)
  }

  ghost predicate ClockRuns(calls: seq<Call>, end: int) {
    && (forall i, j :: 0 <= i < j < |calls| ==> calls[i].now <= calls[j].now)
    && forall i :: 0 <= i < |calls| ==> calls[i].now <= end
  }

  lemma {:induction false} FreshUntilRefreshed(calls: seq<Call>, role: string, url: string, ts: int, ttl: Option<int>,
                                               end: int)
    requires RefreshedInTime(calls, role, url, ts, ttl, end) && ClockRuns(calls, end)
    ensures calls != [] ==> Fresh(ts, ttl, calls[0].now)
  {
    if calls != [] && !Refreshes(calls[0].op, role, url) {
      FreshUntilRefreshed(calls[1..], role, url, ts, ttl, end);
    }
  }

  lemma {:induction false} RefreshesBeatSweeps(calls: seq<Call>, role: string, url: string, ts: int, ttl: Option<int>,
                                               end: int)
    requires RefreshedInTime(calls, role, url, ts, ttl, end) && ClockRuns(calls, end)
    ensures SweepsInTime(calls, role, url, ts, ttl)
  {
    if calls != [] {
      FreshUntilRefreshed(calls, role, url, ts, ttl, end);
      var (t, l) := if Refreshes(calls[0].op, role, url) then (calls[0].now, calls[0].op.ttl) else (ts, ttl);
      RefreshesBeatSweeps(calls[1..], role, url, t, l, end);
    }
  }

  /** An entry that is refreshed at gaps within its current time to live is never swept. */
  lemma {:induction false} RefreshedSurvives(w: World, calls: seq<Call>, e: Entry, end: int)
    requires Distinct(w) && Find(w.services, e.role, e.url) == Some(e) && Undisturbed(w, calls, e.ref)
    requires ClockRuns(calls, end) && RefreshedInTime(calls, e.role, e.url, e.ts, e.ttl, end)
    ensures Holds(Run(w, calls).services, e.ref)
  {
    RefreshesBeatSweeps(calls, e.role, e.url, e.ts, e.ttl, end);
    SurvivesIffSweepsInTime(w, calls, e);
  }

  // ----- The heartbeats of a service -----

  /**
   A service sends a beat every half of ttl, rounded down, the next one at time due; each arrives, no later
   than the rest of ttl after it was sent.
   */
  predicate BeatsArrive(calls: seq<Call>, role: string, url: string, due: int, ttl: nat, end: int) {
    if calls == [] then end <= due + (ttl - ttl / 2)
    else if Refreshes(calls[0].op, role, url) then
      && calls[0].op.ttl == Some(ttl)
      && due <= calls[0].now <= due + (ttl - ttl / 2)
      && BeatsArrive(calls[1..], role, url, due + ttl / 2, ttl, end)
    else BeatsArrive(calls[1..], role, url, due, ttl, end)
  }

  lemma {:induction false} BeatsRefresh(calls: seq<Call>, role: string, url: string, ts: int, due: int, ttl: nat,
                                        end: int)
    requires BeatsArrive(calls, role, url, due, ttl, end) && ts >= due - ttl / 2
    ensures RefreshedInTime(calls, role, url, ts, Some(ttl), end)
  {
    if calls != [] {
      if Refreshes(calls[0].op, role, url) {
        BeatsRefresh(calls[1..], role, url, calls[0].now, due + ttl / 2, ttl, end);
      } else {
        BeatsRefresh(calls[1..], role, url, ts, due, ttl, end);
      }
    }
  }

  /**
   A service that registers when it starts its heartbeats is never swept while the beats arrive, whatever
   their delays within half the time to live and whenever the sweeps come.
   */
  lemma {:induction false} HeartbeatsKeepAlive(w: World, calls: seq<Call>, e: Entry, start: int, ttl: nat, end: int)
    requires Distinct(w) && Find(w.services, e.role, e.url) == Some(e) && Undisturbed(w, calls, e.ref)
    requires e.ttl == Some(ttl) && e.ts >= start - ttl / 2
    requires ClockRuns(calls, end) && BeatsArrive(calls, e.role, e.url, start, ttl, end)
    ensures Holds(Run(w, calls).services, e.ref)
  {
    BeatsRefresh(calls, e.role, e.url, e.ts, start, ttl, end);
    RefreshedSurvives(w, calls, e, end);
  }

  // ----- The bound, and entries that are not refreshed -----

  lemma {:induction false} LiveShorter(s: seq<Entry>, now: int)
    ensures |Live(s, now)| <= |s|
  {
    if s != [] { LiveShorter(s[1..], now); }
  }

  lemma {:induction false} RemovedShorter(s: seq<Entry>, id: string)
    ensures |Removed(s, id)| <= |s|
  {
    if s != [] { RemovedShorter(s[1..], id); }
  }

  /** In every run there are at most 200 entries; a registration beyond takes off the first of the list. */
  lemma {:induction false} AtMost200(w: World, calls: seq<Call>)
    requires |w.services| <= 200
    ensures |Run(w, calls).services| <= 200
    decreases calls
  {
    if calls != [] {
      var s := w.services;
      match calls[0].op {
        case Heartbeat(role, url, ttl) => BeatRefs(s, role, url, ttl, calls[0].now);
        case Cleanup => LiveShorter(s, calls[0].now);
        case Remove(id) => RemovedShorter(s, id);
        case Register(_, _, _) =>
      }
      AtMost200(Exec(w, calls[0]), calls[1..]);
    }
  }

  lemma RegisteredIs(s: seq<Entry>, e: Entry)
    requires |s| <= 200
    ensures |s| < 200 ==> Registered(s, e) == s + [e]
    ensures |s| == 200 ==> [s[0]] + Registered(s, e) == s + [e]
  {
  }

  lemma {:induction false} UnrefreshedSweeps(calls: seq<Call>, role: string, url: string, ts: int, ttl: int)
    requires forall i :: 0 <= i < |calls| ==> !Refreshes(calls[i].op, role, url)
    ensures SweepsInTime(calls, role, url, ts, Some(ttl))
      <==> forall i :: 0 <= i < |calls| && calls[i].op.Cleanup? ==> calls[i].now <= ts + ttl
  {
    if calls != [] {
      UnrefreshedSweeps(calls[1..], role, url, ts, ttl);
      assert forall i :: 0 < i < |calls| ==> calls[i] == calls[1..][i - 1];
    }
  }

  /**
   A registered entry that is never refreshed lives for ten seconds: it is still there if and only if no
   sweep came more than 10000 ms after its registration.
   */
  lemma {:induction false} UnrefreshedLivesTenSeconds(w: World, c: Call, calls: seq<Call>)
    requires Distinct(w) && c.op.Register? && Find(w.services, c.op.role, c.op.url).None?
    requires Undisturbed(Exec(w, c), calls, w.created)
    requires forall i :: 0 <= i < |calls| ==> !Refreshes(calls[i].op, c.op.role, c.op.url)
    ensures Holds(Run(Exec(w, c), calls).services, w.created)
      <==> forall i :: 0 <= i < |calls| && calls[i].op.Cleanup? ==> calls[i].now <= c.now + 10000
  {
    var e := Entry(w.created, c.op.id, c.op.role, c.op.url, c.now, Some(10000));
    RefsKept(w, c);
    RegisteredIsFound(w.services, e);
    SurvivesIffSweepsInTime(Exec(w, c), calls, e);
    UnrefreshedSweeps(calls, c.op.role, c.op.url, c.now, 10000);
  }

  lemma {:induction false} RegisteredIsFound(s: seq<Entry>, e: Entry)
    requires Find(s, e.role, e.url).None?
    ensures Find(Registered(s, e), e.role, e.url) == Some(e)
  {
    FindNew(if |s| + 1 > MAX_SERVICES then s[1..] else s, e);
  }

  lemma {:induction false} FindNew(s: seq<Entry>, e: Entry)
    requires Find(s, e.role, e.url).None?
    ensures Find(s + [e], e.role, e.url) == Some(e)
  {
    if s != [] {
      assert (s + [e])[1..] == s[1..] + [e];
      FindNew(s[1..], e);
    }
  }
}

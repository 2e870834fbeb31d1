/** The server as a value: the table of connections, the records behind it, and the
    timers. What every step keeps, and how long TIME_WAIT lasts. */
module ServerSpec {
  import opened Words
  import opened OrderedProbing
  import opened IdPools
  import opened TimerSpec
  import opened TimerLinks

  const TIME_WAIT: nat := 60000
  const SYN_RTO: nat := 1000

  /** The timers a connection has for itself: resend and delayed acknowledgement. */
  const OWN: nat := 2

  datatype Peer = Peer(ip: uint32, port: uint16)

  /** `connHashKey`: the address, and the port with its top bit moved to the front. */
  function Key(p: Peer): (k: nat)
    ensures k < EMPTY_KEY
  {
    p.ip * 0x8000 + if p.port < 0x8000 then p.port else p.port - 0x8000 + 0x8000_0000_0000
  }

  /** Different peers have different keys. */
  lemma KeyIsInjective(p: Peer, q: Peer)
    requires Key(p) == Key(q)
    ensures p == q
  {
  }

  /** What handlers do: set a timer of a connection, or close a connection. */
  datatype Deed = SetTimer(id: nat, timer: nat, duration: nat) | Close(id: nat)

  /** `contents` maps keys to ids: those of connections, and from `|connKeys|` on those of
      TIME_WAIT records. `armed` maps the nodes of running timers to the tick they are due
      at. Record `tw` has node `HEADS + tw`; the `timers` nodes of connection `id`, from
      `nodes[id]` on, come after those and before `end`. */
  datatype Srv = Srv(maxTw: nat, timers: nat, nodes: seq<Timer>, end: nat,
                     time: nat, contents: map<nat, nat>, armed: map<Timer, nat>,
                     connKeys: seq<nat>, open: seq<bool>, twKeys: seq<nat>)

  function TwNode(tw: nat): (x: Timer) {
    HEADS + tw
  }

  function ConnNode(s: Srv, id: nat, timer: nat): (x: Timer)
    requires id < |s.nodes|
  {
    s.nodes[id] + timer
  }

  /** Connections have nodes from `lo` up to `hi`, and do not share them. */
  ghost predicate Laid(nodes: seq<Timer>, timers: nat, lo: nat, hi: nat) {
    && (forall i: nat :: i < |nodes| ==> Inside(nodes, timers, lo, hi, i))
    && (forall i: nat, k: nat :: i < k < |nodes| ==> Apart(nodes, timers, i, k))
  }

  ghost predicate Inside(nodes: seq<Timer>, timers: nat, lo: nat, hi: nat, i: nat)
    requires i < |nodes|
  {
    lo <= nodes[i] && nodes[i] + timers <= hi
  }

  ghost predicate Apart(nodes: seq<Timer>, timers: nat, i: nat, k: nat)
    requires i < |nodes| && k < |nodes|
  {
    nodes[i] + timers <= nodes[k]
  }

  /** One after the other. */
  function Layout(lo: nat, timers: nat, n: nat): (nodes: seq<Timer>)
    ensures |nodes| == n
  {
    if n == 0 then [] else Layout(lo, timers, n - 1) + [LayoutEnd(lo, timers, n - 1)]
  }

  function LayoutEnd(lo: nat, timers: nat, n: nat): (hi: nat)
    ensures hi >= lo
  {
    if n == 0 then lo else LayoutEnd(lo, timers, n - 1) + timers
  }

  lemma {:induction false} LayoutIsLaid(lo: nat, timers: nat, n: nat)
    ensures Laid(Layout(lo, timers, n), timers, lo, LayoutEnd(lo, timers, n))
  {
    if n > 0 {
      LayoutIsLaid(lo, timers, n - 1);
      var before, nodes := Layout(lo, timers, n - 1), Layout(lo, timers, n);
      var mid, end := LayoutEnd(lo, timers, n - 1), LayoutEnd(lo, timers, n);
      forall i: nat | i < n
        ensures Inside(nodes, timers, lo, end, i)
      {
        assert i < n - 1 ==> Inside(before, timers, lo, mid, i);
      }
      forall i: nat, k: nat | i < k < n
        ensures Apart(nodes, timers, i, k)
      {
        assert Inside(before, timers, lo, mid, i);
        assert k < n - 1 ==> Apart(before, timers, i, k);
      }
    }
  }

  // ---- what always holds ----

  /** The entry of a key belongs to a live record: an open connection, or a TIME_WAIT record
      whose timer runs; and it is the key of that record's peer. */
  ghost predicate EntryOk(s: Srv, k: nat)
    requires k in s.contents && |s.open| == |s.connKeys| && |s.twKeys| == s.maxTw
  {
    var v, n := s.contents[k], |s.connKeys|;
    if v < n then s.open[v] && k == s.connKeys[v]
    else v - n < s.maxTw && TwNode(v - n) in s.armed && k == s.twKeys[v - n]
  }

  /** And every live record has its entry. */
  ghost predicate ConnOk(s: Srv, id: nat)
    requires id < |s.open| == |s.connKeys|
  {
    s.open[id] ==> s.connKeys[id] in s.contents && s.contents[s.connKeys[id]] == id
  }

  ghost predicate TwOk(s: Srv, tw: nat)
    requires tw < |s.twKeys|
  {
    TwNode(tw) in s.armed ==>
      && s.twKeys[tw] in s.contents && s.contents[s.twKeys[tw]] == |s.connKeys| + tw
      && s.armed[TwNode(tw)] <= s.time + TIME_WAIT
  }

  /** Only open connections have timers of their own running. */
  ghost predicate OwnOk(s: Srv, id: nat)
    requires id < |s.open| == |s.nodes|
  {
    !s.open[id] ==> ConnNode(s, id, 0) !in s.armed && ConnNode(s, id, 1) !in s.armed
  }

  ghost predicate Consistent(s: Srv) {
    && s.timers >= OWN && |s.open| == |s.connKeys| == |s.nodes| && |s.twKeys| == s.maxTw
    && Laid(s.nodes, s.timers, HEADS + s.maxTw, s.end)
    && (forall k: nat {:trigger EntryOk(s, k)} :: k in s.contents ==> EntryOk(s, k))
    && (forall id: nat :: id < |s.open| ==> ConnOk(s, id))
    && (forall tw: nat :: tw < |s.twKeys| ==> TwOk(s, tw))
    && (forall id: nat :: id < |s.open| ==> OwnOk(s, id))
  }

  /** The same, for the verifier to take apart on demand. */
  ghost predicate Sound(s: Srv) {
    forall x: Srv {:trigger Consistent(x)} :: x == s ==> Consistent(x)
  }

  /** A TIME_WAIT timer runs exactly when its record is in use, and a connection is open
      exactly when its id is. */
  lemma LinkedIffInUse(s: Srv, id: nat)
    requires Consistent(s)
    ensures id < s.maxTw ==> (TwNode(id) in s.armed <==> InUse(s.contents, |s.connKeys| + id))
    ensures id < |s.open| ==> (s.open[id] <==> InUse(s.contents, id))
  {
    if id < s.maxTw {
      assert TwOk(s, id);
      if InUse(s.contents, |s.connKeys| + id) {
        var k :| k in s.contents && s.contents[k] == |s.connKeys| + id;
        assert EntryOk(s, k);
      }
    }
    if id < |s.open| {
      assert ConnOk(s, id);
      if InUse(s.contents, id) {
        var k :| k in s.contents && s.contents[k] == id;
        assert EntryOk(s, k);
      }
    }
  }

  datatype Found = Unknown | Conn(id: nat) | Waiting(id: nat)

  /** The entry a key has in the table. */
  function Lookup(s: Srv, k: nat): (r: Found) {
    if k !in s.contents then Unknown
    else if s.contents[k] < |s.connKeys| then Conn(s.contents[k])
    else Waiting(s.contents[k] - |s.connKeys|)
  }

  /** What is found is a live record of that very key. */
  lemma FoundIsLive(s: Srv, k: nat)
    requires Sound(s)
    ensures var r := Lookup(s, k);
            && (r.Conn? ==> r.id < |s.open| == |s.connKeys| && s.open[r.id] && s.connKeys[r.id] == k)
            && (r.Waiting? ==> r.id < s.maxTw == |s.twKeys| && TwNode(r.id) in s.armed && s.twKeys[r.id] == k)
  {
    assert Consistent(s);
    if k in s.contents { assert EntryOk(s, k); }
  }

  // ---- the steps ----

  /** A connection is closed: its entry goes, and all its timers stop. */
  ghost function Closed(s: Srv, id: nat): (s': Srv)
    requires id < |s.open| == |s.connKeys| == |s.nodes|
  {
    s.(contents := s.contents - {s.connKeys[id]}, open := s.open[id := false],
       armed := Without(s.armed, ConnNode(s, id, 0), ConnNode(s, id, 0) + s.timers))
  }

  lemma ClosedOk(s: Srv, id: nat)
    requires Consistent(s) && id < |s.open| && s.open[id]
    ensures Consistent(Closed(s, id))
  {
    var s' := Closed(s, id);
    assert ConnOk(s, id) && Inside(s.nodes, s.timers, HEADS + s.maxTw, s.end, id);
    forall k: nat | k in s'.contents
      ensures EntryOk(s', k)
    {
      assert EntryOk(s, k);
    }
    forall i: nat | i < |s'.open|
      ensures ConnOk(s', i) && OwnOk(s', i)
    {
      assert ConnOk(s, i) && OwnOk(s, i);
    }
    forall tw: nat | tw < |s'.twKeys|
      ensures TwOk(s', tw)
    {
      assert TwOk(s, tw);
    }
  }

  /** A server where nothing is open. */
  ghost function Fresh(maxTw: nat, timers: nat, nodes: seq<Timer>, end: nat, time: nat, k: nat): (s: Srv)
    requires timers >= OWN && Laid(nodes, timers, HEADS + maxTw, end)
    ensures Sound(s) && |s.open| == |s.connKeys| == |nodes| && |s.twKeys| == maxTw
    ensures forall id :: 0 <= id < |nodes| ==> !s.open[id] && s.connKeys[id] == k
    ensures forall tw :: 0 <= tw < maxTw ==> s.twKeys[tw] == k
  {
    var n := |nodes|;
    Srv(maxTw, timers, nodes, end, time, map[], map[], seq(n, _ => k), seq(n, _ => false), seq(maxTw, _ => k))
  }

  /** A closed connection's key goes to a free TIME_WAIT record, whose timer is started. */
  ghost function Entered(s: Srv, k: nat, tw: nat): (s': Srv)
    requires tw < |s.twKeys|
  {
    s.(contents := s.contents[k := |s.connKeys| + tw], twKeys := s.twKeys[tw := k],
       armed := s.armed[TwNode(tw) := s.time + TIME_WAIT])
  }

  lemma EnteredOk(s: Srv, k: nat, tw: nat)
    requires Consistent(s) && tw < |s.twKeys| && Lookup(s, k) == Unknown && TwNode(tw) !in s.armed
    ensures Consistent(Entered(s, k, tw))
  {
    var s' := Entered(s, k, tw);
    forall k': nat | k' in s'.contents
      ensures EntryOk(s', k')
    {
      if k' != k { assert EntryOk(s, k'); }
    }
    forall i: nat | i < |s'.open|
      ensures ConnOk(s', i) && OwnOk(s', i)
    {
      assert ConnOk(s, i) && OwnOk(s, i) && Inside(s.nodes, s.timers, HEADS + s.maxTw, s.end, i);
    }
    forall i: nat | i < |s'.twKeys|
      ensures TwOk(s', i)
    {
      if i != tw { assert TwOk(s, i); }
    }
  }

  /** The end of TIME_WAIT. */
  ghost function Ended(s: Srv, tw: nat): (s': Srv)
    requires tw < |s.twKeys|
  {
    s.(contents := s.contents - {s.twKeys[tw]}, armed := s.armed - {TwNode(tw)})
  }

  lemma EndedOk(s: Srv, tw: nat)
    requires Consistent(s) && tw < |s.twKeys| && TwNode(tw) in s.armed
    ensures Consistent(Ended(s, tw))
  {
    var s' := Ended(s, tw);
    assert TwOk(s, tw);
    forall k: nat | k in s'.contents
      ensures EntryOk(s', k)
    {
      assert EntryOk(s, k);
    }
    forall i: nat | i < |s'.open|
      ensures ConnOk(s', i) && OwnOk(s', i)
    {
      assert ConnOk(s, i) && OwnOk(s, i);
    }
    forall i: nat | i < |s'.twKeys|
      ensures TwOk(s', i)
    {
      assert TwOk(s, i);
    }
  }

  /** A new connection, whose resend timer is started with the SYN. */
  ghost function Accepted(s: Srv, k: nat, id: nat): (s': Srv)
    requires id < |s.open| == |s.connKeys| == |s.nodes|
  {
    s.(contents := s.contents[k := id], connKeys := s.connKeys[id := k], open := s.open[id := true],
       armed := s.armed[ConnNode(s, id, 0) := s.time + SYN_RTO])
  }

  lemma AcceptedOk(s: Srv, k: nat, id: nat)
    requires Consistent(s) && id < |s.open| && !s.open[id] && Lookup(s, k) == Unknown
    ensures Consistent(Accepted(s, k, id)) && ConnNode(s, id, 0) !in s.armed
  {
    var s' := Accepted(s, k, id);
    assert OwnOk(s, id) && Inside(s.nodes, s.timers, HEADS + s.maxTw, s.end, id);
    forall k': nat | k' in s'.contents
      ensures EntryOk(s', k')
    {
      if k' != k { assert EntryOk(s, k'); }
    }
    forall i: nat | i < |s'.open|
      ensures ConnOk(s', i) && OwnOk(s', i)
    {
      if i != id {
        assert ConnOk(s, i) && OwnOk(s, i);
        assert Apart(s.nodes, s.timers, if i < id then i else id, if i < id then id else i);
      }
    }
    forall tw: nat | tw < |s'.twKeys|
      ensures TwOk(s', tw)
    {
      assert TwOk(s, tw);
    }
  }

  /** A timer of a connection changes: it is set, stopped, or has fired. */
  lemma TimerChangedOk(s: Srv, id: nat, timer: nat, armed: map<Timer, nat>)
    requires Consistent(s) && id < |s.open| && timer < s.timers && (timer < OWN ==> s.open[id])
    requires forall x :: x != ConnNode(s, id, timer) ==> (x in armed <==> x in s.armed)
    requires forall x :: x != ConnNode(s, id, timer) && x in armed ==> armed[x] == s.armed[x]
    ensures Consistent(s.(armed := armed))
  {
    var s' := s.(armed := armed);
    assert Inside(s.nodes, s.timers, HEADS + s.maxTw, s.end, id);
    forall k: nat | k in s'.contents
      ensures EntryOk(s', k)
    {
      assert EntryOk(s, k);
    }
    forall i: nat | i < |s'.open|
      ensures ConnOk(s', i) && OwnOk(s', i)
    {
      assert ConnOk(s, i) && OwnOk(s, i);
      if i != id { assert Apart(s.nodes, s.timers, if i < id then i else id, if i < id then id else i); }
    }
    forall tw: nat | tw < |s'.twKeys|
      ensures TwOk(s', tw)
    {
      assert TwOk(s, tw);
    }
  }

  /** The clock moves on. */
  lemma TickedOk(s: Srv, time: nat)
    requires Consistent(s) && s.time <= time
    ensures Consistent(s.(time := time))
  {
    var s' := s.(time := time);
    forall k: nat | k in s'.contents
      ensures EntryOk(s', k)
    {
      assert EntryOk(s, k);
    }
    forall i: nat | i < |s'.open|
      ensures ConnOk(s', i) && OwnOk(s', i)
    {
      assert ConnOk(s, i) && OwnOk(s, i);
    }
    forall tw: nat | tw < |s'.twKeys|
      ensures TwOk(s', tw)
    {
      assert TwOk(s, tw);
    }
  }

  // ---- what handlers do ----

  /** What a deed does. Closing a closed connection does nothing, and a closed connection
      does not set timers of its own. */
  ghost function AfterDeed(s: Srv, d: Deed): (s': Srv)
    requires Sound(s)
    ensures Sound(s')
  {
    assert Consistent(s);
    match d
    case Close(id) =>
      if id < |s.open| && s.open[id] then
        ClosedOk(s, id);
        Closed(s, id)
      else s
    case SetTimer(id, timer, duration) =>
      if MaySet(s, d) then
        TimerSetOk(s, id, timer, duration);
        s.(armed := Apply(s.armed, s.time, Set(ConnNode(s, id, timer), duration)))
      else s
  }

  lemma TimerSetOk(s: Srv, id: nat, timer: nat, duration: nat)
    requires Consistent(s) && id < |s.open| && timer < s.timers && (timer < OWN ==> s.open[id])
    ensures Consistent(s.(armed := Apply(s.armed, s.time, Set(ConnNode(s, id, timer), duration))))
  {
    TimerChangedOk(s, id, timer, Apply(s.armed, s.time, Set(ConnNode(s, id, timer), duration)));
  }

  /** The same, for the verifier to take apart on demand. */
  lemma TimerStep(s: Srv, id: nat, timer: nat, armed: map<Timer, nat>)
    requires Sound(s) && id < |s.open| == |s.nodes| && timer < s.timers && (timer < OWN ==> s.open[id])
    requires forall x :: x != ConnNode(s, id, timer) ==> (x in armed <==> x in s.armed)
    requires forall x :: x != ConnNode(s, id, timer) && x in armed ==> armed[x] == s.armed[x]
    ensures Sound(s.(armed := armed)) == true
  {
    assert Consistent(s);
    TimerChangedOk(s, id, timer, armed);
  }

  predicate MaySet(s: Srv, d: Deed) {
    && d.SetTimer? && d.id < |s.open| == |s.nodes| && d.timer < s.timers && d.duration < TWO32
    && (d.timer < OWN ==> s.open[d.id])
  }

  ghost function AfterDeeds(s: Srv, deeds: seq<Deed>, n: nat): (s': Srv)
    requires Sound(s) && n <= |deeds|
    ensures Sound(s')
  {
    if n == 0 then s else AfterDeed(AfterDeeds(s, deeds, n - 1), deeds[n - 1])
  }

  /** The connections that deeds close. */
  ghost function ClosedIds(deeds: seq<Deed>, n: nat, conns: nat): (ids: set<nat>)
    requires n <= |deeds|
  {
    set i: nat | i < n && deeds[i].Close? && deeds[i].id < conns :: deeds[i].id
  }

  /** The clock and the peers are the same. */
  ghost predicate SameRecords(s: Srv, s': Srv) {
    && s'.time == s.time && s'.maxTw == s.maxTw && s'.timers == s.timers
    && s'.nodes == s.nodes && s'.end == s.end
    && s'.connKeys == s.connKeys && s'.twKeys == s.twKeys && |s'.open| == |s.open|
  }

  ghost predicate SameWait(s: Srv, s': Srv, tw: nat) {
    && (TwNode(tw) in s'.armed <==> TwNode(tw) in s.armed)
    && (TwNode(tw) in s.armed ==> s'.armed[TwNode(tw)] == s.armed[TwNode(tw)])
  }

  /** The connections in `closed` are closed, and nothing else: every other entry stays,
      and so do the timers of TIME_WAIT. */
  ghost predicate OnlyClosed(s: Srv, s': Srv, closed: set<nat>) {
    && SameRecords(s, s')
    && (forall id: nat :: id < |s.open| ==> (s'.open[id] <==> s.open[id] && id !in closed))
    && (forall k: nat :: k in s'.contents <==> k in s.contents && s.contents[k] !in closed)
    && (forall k: nat :: k in s'.contents ==> s'.contents[k] == s.contents[k])
    && (forall tw: nat :: tw < s.maxTw ==> SameWait(s, s', tw))
  }

  lemma {:induction false} DeedsCloseOnly(s: Srv, deeds: seq<Deed>, n: nat)
    requires Sound(s) && n <= |deeds|
    ensures OnlyClosed(s, AfterDeeds(s, deeds, n), ClosedIds(deeds, n, |s.open|))
  {
    if n > 0 {
      DeedsCloseOnly(s, deeds, n - 1);
      var s1, s2, d := AfterDeeds(s, deeds, n - 1), AfterDeeds(s, deeds, n), deeds[n - 1];
      var closed := if d.Close? && d.id < |s.open| then {d.id} else {};
      OneDeed(s1, d);
      assert ClosedIds(deeds, n, |s.open|) == ClosedIds(deeds, n - 1, |s.open|) + closed;
      ClosedTwice(s, s1, s2, ClosedIds(deeds, n - 1, |s.open|), closed);
    }
  }

  lemma ClosedTwice(s: Srv, s1: Srv, s2: Srv, closed1: set<nat>, closed2: set<nat>)
    requires OnlyClosed(s, s1, closed1) && OnlyClosed(s1, s2, closed2)
    ensures OnlyClosed(s, s2, closed1 + closed2)
  {
    forall tw: nat | tw < s.maxTw
      ensures SameWait(s, s2, tw)
    {
      assert SameWait(s, s1, tw) && SameWait(s1, s2, tw);
    }
  }

  lemma OneDeed(s: Srv, d: Deed)
    requires Sound(s)
    ensures OnlyClosed(s, AfterDeed(s, d), if d.Close? && d.id < |s.open| then {d.id} else {})
  {
    assert Consistent(s);
    if d.Close? && d.id < |s.open| {
      forall k: nat | k in s.contents && s.contents[k] == d.id
        ensures s.open[d.id] && k == s.connKeys[d.id]
      {
        assert EntryOk(s, k);
      }
      assert ConnOk(s, d.id) && Inside(s.nodes, s.timers, HEADS + s.maxTw, s.end, d.id);
    } else if MaySet(s, d) {
      assert Inside(s.nodes, s.timers, HEADS + s.maxTw, s.end, d.id);
    }
  }

  // ---- TIME_WAIT ----

  /** Key `k` is in TIME_WAIT, under record `tw`. */
  ghost predicate Waits(s: Srv, k: nat, tw: nat) {
    && tw < s.maxTw && k in s.contents && s.contents[k] == |s.connKeys| + tw && TwNode(tw) in s.armed
  }

  ghost function Due(s: Srv, tw: nat): (tick: nat) {
    if TwNode(tw) in s.armed then s.armed[TwNode(tw)] else 0
  }

  /** All keys in TIME_WAIT but those in `ended` stay as they are. */
  ghost predicate Stay(s: Srv, s': Srv, ended: set<nat>) {
    && s'.maxTw == s.maxTw && |s'.connKeys| == |s.connKeys| && s'.time == s.time
    && forall k: nat, tw: nat :: Waits(s, k, tw) && k !in ended ==> Waits(s', k, tw) && Due(s', tw) == Due(s, tw)
  }

  /** The same across a tick: they stay exactly until they are due. */
  ghost predicate Last(s: Srv, s': Srv, ended: set<nat>) {
    && s'.maxTw == s.maxTw && |s'.connKeys| == |s.connKeys| && s.time <= s'.time <= s.time + 1
    && forall k: nat, tw: nat ::
         Waits(s, k, tw) && k !in ended ==>
           if Due(s, tw) <= s'.time then k !in s'.contents else Waits(s', k, tw) && Due(s', tw) == Due(s, tw)
  }

  lemma StayIsLast(s: Srv, s': Srv, ended: set<nat>)
    requires Stay(s, s', ended) && forall x :: x in s.armed ==> s.time < s.armed[x]
    ensures Last(s, s', ended)
  {
  }

  lemma StayTwice(s: Srv, s1: Srv, s2: Srv, ended: set<nat>)
    requires Stay(s, s1, ended) && Stay(s1, s2, {})
    ensures Stay(s, s2, ended)
  {
  }

  lemma ClosedStay(s: Srv, s': Srv, closed: set<nat>)
    requires OnlyClosed(s, s', closed) && forall id :: id in closed ==> id < |s.connKeys|
    ensures Stay(s, s', {})
  {
    forall k: nat, tw: nat | Waits(s, k, tw)
      ensures Waits(s', k, tw) && Due(s', tw) == Due(s, tw)
    {
      assert SameWait(s, s', tw);
    }
  }

  /** All keys but `key` have the entries they had, except that the connections in `closed`
      are closed. */
  ghost predicate OthersStay(s: Srv, s': Srv, key: nat, closed: set<nat>) {
    forall k: nat :: k != key ==>
                       && (k in s'.contents <==> k in s.contents && s.contents[k] !in closed)
                       && (k in s'.contents ==> s'.contents[k] == s.contents[k])
  }

  lemma OthersStayTwice(s: Srv, s1: Srv, s2: Srv, key: nat, closed: set<nat>)
    requires OthersStay(s, s1, key, closed) && OthersStay(s1, s2, key, {})
    ensures OthersStay(s, s2, key, closed)
  {
  }

  /** What an established connection makes of a packet: it goes on, is closed, or enters
      TIME_WAIT if there is a record left. */
  datatype Verdict = Going | Closing | TimeWait

  ghost predicate Concluded(s: Srv, s': Srv, id: nat, verdict: Verdict, tw: nat)
    requires id < |s.open| == |s.connKeys| == |s.nodes| && |s.twKeys| == s.maxTw
  {
    match verdict
    case Going => s' == s
    case Closing => s' == Closed(s, id)
    case TimeWait =>
      || s' == Closed(s, id)
      || (tw < s.maxTw && TwNode(tw) !in s.armed && s' == Entered(Closed(s, id), s.connKeys[id], tw))
  }

  /** In each case, what is in TIME_WAIT stays, and so does every other key. */
  lemma ConcludedStay(s: Srv, s': Srv, id: nat, verdict: Verdict, tw: nat)
    requires Sound(s) && id < |s.open| == |s.connKeys| == |s.nodes| && |s.twKeys| == s.maxTw && s.open[id]
    requires Concluded(s, s', id, verdict, tw)
    ensures Stay(s, s', {}) && OthersStay(s, s', s.connKeys[id], {})
  {
    assert Consistent(s) && ConnOk(s, id) && Inside(s.nodes, s.timers, HEADS + s.maxTw, s.end, id);
  }

  /** What becomes of the server when a packet is delivered to connection `id`: handlers
      act, and unless they close the connection, the verdict is carried out. */
  ghost predicate AfterDelivery(s: Srv, s': Srv, id: nat, deeds: seq<Deed>, verdict: Verdict, tw: nat)
    requires Sound(s)
  {
    var s1 := AfterDeeds(s, deeds, |deeds|);
    && id < |s1.open| == |s1.connKeys| == |s1.nodes| && |s1.twKeys| == s1.maxTw
    && if s1.open[id] then Concluded(s1, s', id, verdict, tw) else s' == s1
  }

  lemma DeliveryStay(s: Srv, s': Srv, id: nat, deeds: seq<Deed>, verdict: Verdict, tw: nat)
    requires Sound(s) && AfterDelivery(s, s', id, deeds, verdict, tw) && |s.open| == |s.connKeys|
    ensures id < |s.connKeys| && Stay(s, s', {})
    ensures OthersStay(s, s', s.connKeys[id], ClosedIds(deeds, |deeds|, |s.open|))
  {
    var s1, closed := AfterDeeds(s, deeds, |deeds|), ClosedIds(deeds, |deeds|, |s.open|);
    DeedsCloseOnly(s, deeds, |deeds|);
    ClosedStay(s, s1, closed);
    if s1.open[id] {
      ConcludedStay(s1, s', id, verdict, tw);
      StayTwice(s, s1, s', {});
      OthersStayTwice(s, s1, s', s.connKeys[id], closed);
    }
  }

  /** A run of the server: in step `i`, the keys of `ended[i]` are freed by a RST. */
  ghost predicate Run(ss: seq<Srv>, ended: seq<set<nat>>) {
    |ss| == |ended| + 1 && forall i: nat :: i < |ended| ==> Last(ss[i], ss[i + 1], ended[i])
  }

  /** Left alone, a key stays in TIME_WAIT until its timer is due. */
  lemma {:induction false} WaitsUntilDue(ss: seq<Srv>, ended: seq<set<nat>>, k: nat, tw: nat, n: nat)
    requires Run(ss, ended) && n <= |ended| && Waits(ss[0], k, tw)
    requires forall i: nat :: i < n ==> k !in ended[i]
    ensures ss[0].time <= ss[n].time
    ensures ss[n].time < Due(ss[0], tw) ==> Waits(ss[n], k, tw) && Due(ss[n], tw) == Due(ss[0], tw)
  {
    if n > 0 {
      WaitsUntilDue(ss, ended, k, tw, n - 1);
      assert Last(ss[n - 1], ss[n], ended[n - 1]);
    }
  }

  /** And so it goes exactly 60000 ticks after it entered. */
  lemma TimeWaitLasts(before: Srv, k: nat, tw: nat, ss: seq<Srv>, ended: seq<set<nat>>, n: nat)
    requires Run(ss, ended) && n <= |ended| && tw < |before.twKeys| == before.maxTw
    requires ss[0] == Entered(before, k, tw)
    requires forall i: nat :: i < n ==> k !in ended[i]
    ensures ss[n].time < ss[0].time + TIME_WAIT ==> Waits(ss[n], k, tw)
    ensures 0 < n && ss[n - 1].time < ss[0].time + TIME_WAIT <= ss[n].time ==>
              k !in ss[n].contents && ss[n].time == ss[0].time + TIME_WAIT
  {
    WaitsUntilDue(ss, ended, k, tw, n);
    if n > 0 {
      WaitsUntilDue(ss, ended, k, tw, n - 1);
      assert Last(ss[n - 1], ss[n], ended[n - 1]);
    }
  }

  // ---- the same steps, with the invariant left in one piece ----

  lemma CloseStep(s: Srv, id: nat)
    requires Sound(s) && id < |s.open| == |s.connKeys| == |s.nodes| && s.open[id]
    ensures Sound(Closed(s, id)) && s.connKeys[id] in s.contents && s.contents[s.connKeys[id]] == id
  {
    assert Consistent(s) && ConnOk(s, id);
    ClosedOk(s, id);
  }

  lemma EnterStep(s: Srv, id: nat, tw: nat)
    requires Sound(s) && id < |s.open| == |s.connKeys| == |s.nodes| && s.open[id] && tw < |s.twKeys| == s.maxTw
    requires !InUse(s.contents, |s.connKeys| + tw)
    ensures Sound(Entered(Closed(s, id), s.connKeys[id], tw)) && TwNode(tw) !in s.armed
    ensures TwNode(tw) !in Closed(s, id).armed
  {
    assert Consistent(s) && ConnOk(s, id);
    ClosedOk(s, id);
    LinkedIffInUse(s, tw);
    EnteredOk(Closed(s, id), s.connKeys[id], tw);
  }

  lemma EndStep(s: Srv, tw: nat)
    requires Sound(s) && tw < |s.twKeys| == s.maxTw && TwNode(tw) in s.armed
    ensures Sound(Ended(s, tw)) && s.twKeys[tw] in s.contents
    ensures Stay(s, Ended(s, tw), {s.twKeys[tw]}) && OthersStay(s, Ended(s, tw), s.twKeys[tw], {})
  {
    assert Consistent(s) && TwOk(s, tw);
    EndedOk(s, tw);
    forall k: nat | k in s.contents
      ensures EntryOk(s, k)
    {
    }
  }

  lemma OpenIsStored(s: Srv, id: nat)
    requires Sound(s) && id < |s.open| == |s.connKeys| == |s.nodes| && s.open[id]
    ensures s.connKeys[id] in s.contents && s.contents[s.connKeys[id]] == id
  {
    assert Consistent(s) && ConnOk(s, id);
  }

  lemma AcceptStep(s: Srv, k: nat, id: nat)
    requires Sound(s) && id < |s.open| == |s.connKeys| == |s.nodes| && !InUse(s.contents, id) && k !in s.contents
    ensures Sound(Accepted(s, k, id)) && !s.open[id] && ConnNode(s, id, 0) !in s.armed
    ensures Stay(s, Accepted(s, k, id), {}) && OthersStay(s, Accepted(s, k, id), k, {})
  {
    assert Consistent(s);
    LinkedIffInUse(s, id);
    AcceptedOk(s, k, id);
  }

  lemma TickStep(s: Srv)
    requires Sound(s)
    ensures Sound(s.(time := s.time + 1))
  {
    assert Consistent(s);
    TickedOk(s, s.time + 1);
  }

  /** The timer of a connection fires. */
  lemma FireStep(s: Srv, x: Timer)
    requires Sound(s) && HEADS + s.maxTw <= x
    ensures Sound(s.(armed := s.armed - {x})) && OnlyClosed(s, s.(armed := s.armed - {x}), {})
  {
    assert Consistent(s);
    var s' := s.(armed := s.armed - {x});
    forall k: nat | k in s'.contents
      ensures EntryOk(s', k)
    {
      assert EntryOk(s, k);
    }
    forall i: nat | i < |s'.open|
      ensures ConnOk(s', i) && OwnOk(s', i)
    {
      assert ConnOk(s, i) && OwnOk(s, i);
    }
    forall tw: nat | tw < |s'.twKeys|
      ensures TwOk(s', tw)
    {
      assert TwOk(s, tw);
    }
    assert Consistent(s');
  }

  // ---- one tick ----

  /** While timers fire at tick `s.time`: no entry is new, and of the TIME_WAIT timers only
      those due now are gone. */
  ghost predicate Firing(s: Srv, s': Srv) {
    && SameRecords(s, s')
    && (forall k: nat :: k in s'.contents ==> k in s.contents && s'.contents[k] == s.contents[k])
    && (forall tw: nat :: tw < s.maxTw ==> SameWait(s, s', tw) || (TwNode(tw) !in s'.armed && Due(s, tw) <= s.time))
  }

  /** A TIME_WAIT timer fires, and its entry is deleted. */
  lemma FiringEnded(s: Srv, s': Srv, tw: nat)
    requires Firing(s, s') && tw < |s'.twKeys| && TwNode(tw) in s'.armed && Due(s', tw) <= s.time
    ensures Firing(s, Ended(s', tw))
  {
    var s'' := Ended(s', tw);
    forall i: nat | i < s.maxTw
      ensures SameWait(s, s'', i) || (TwNode(i) !in s''.armed && Due(s, i) <= s.time)
    {
      assert SameWait(s, s', i) || (TwNode(i) !in s'.armed && Due(s, i) <= s.time);
    }
  }

  /** A timer of a connection fires, and its handler acts. */
  lemma FiringDone(s: Srv, s': Srv, s'': Srv, closed: set<nat>)
    requires Firing(s, s') && OnlyClosed(s', s'', closed)
    ensures Firing(s, s'')
  {
    forall i: nat | i < s.maxTw
      ensures SameWait(s, s'', i) || (TwNode(i) !in s''.armed && Due(s, i) <= s.time)
    {
      assert SameWait(s, s', i) || (TwNode(i) !in s'.armed && Due(s, i) <= s.time);
      assert SameWait(s', s'', i);
    }
  }

  /** When nothing due is left, the tick is complete. */
  lemma TickIsLast(s: Srv, s': Srv)
    requires Sound(s) && Sound(s') && Firing(s.(time := s.time + 1), s')
    requires forall x :: x in s'.armed ==> s'.time < s'.armed[x]
    ensures Last(s, s', {})
  {
    var s1 := s.(time := s.time + 1);
    assert Consistent(s) && Consistent(s');
    forall k: nat, tw: nat | Waits(s, k, tw)
      ensures if Due(s, tw) <= s'.time then k !in s'.contents else Waits(s', k, tw) && Due(s', tw) == Due(s, tw)
    {
      assert SameWait(s1, s', tw) || (TwNode(tw) !in s'.armed && Due(s1, tw) <= s1.time);
      assert EntryOk(s, k) && TwOk(s', tw);
      if k in s'.contents { assert EntryOk(s', k); }
    }
  }
}

/** The server's bookkeeping of connections: which packet goes to which connection,
    and how connections are opened, closed, and kept in TIME_WAIT. */
module TcpServer {
  import opened Words
  import opened OrderedProbing
  import opened TableGrowth
  import opened IdPools
  import opened ConnTable
  import opened TimerSpec
  import opened TimerLinks
  import opened TimerWheel
  import opened ServerSpec

  /** What a packet says, as far as the server looks at it; `size` is the length of its
      text. */
  datatype Segment = Segment(peer: Peer, seqNum: uint32, ackNum: uint32, size: nat,
                             syn: bool, ack: bool, rst: bool, fin: bool)

  /** A connection, with the key of its peer. Until it is established, `rcvNext` is the
      sequence number it expects and `sndNext` the one after its SYN. */
  datatype Record = Record(key: nat, open: bool, established: bool, rcvNext: uint32, sndNext: uint32)

  /** A peer in TIME_WAIT, by its key, and the sequence number that is expected of it. */
  datatype TwRecord = TwRecord(key: nat, ackNum: uint32)

  datatype Action = Nothing | Reset | AckTimeWait | Opened(id: nat) | ResendSyn(id: nat) | Delivered(id: nat)

  const NO_RECORD: Record := Record(0, false, false, 0, 0)
  const NO_TW: TwRecord := TwRecord(0, 0)

  class Server {
    const table: Table
    const wheel: Wheel
    const timers: nat
    const nodes: seq<Timer>
    const conns: array<Record>
    const tws: array<TwRecord>
    // the server as a value
    ghost var st: Srv

    ghost predicate Shape()
      reads this
    {
      && conns.Length == table.maxConn && tws.Length == table.maxTw && timers >= OWN
      && |nodes| == table.maxConn && Laid(nodes, timers, HEADS + table.maxTw, wheel.next.Length)
      && var ws: set<object> := {wheel.next as object, wheel.prev as object, wheel.expire as object};
         var ts: set<object> := {table.keys, table.ids, table.conns, table.twIds};
         var rs: set<object> := {conns as object, tws as object};
         ws !! ts && ws !! rs && ts !! rs && |rs| == 2
    }

    /** The fields are what the value says. */
    ghost predicate Flat()
      reads this, table, wheel, conns, tws
    {
      && SameFrame() && st.contents == table.contents
      && |wheel.home| == |wheel.due| && st.armed == wheel.Armed() && RecordsFlat()
    }

    /** The sizes, the layout of the nodes and the clock are those of the value. */
    ghost predicate SameFrame()
      reads this, wheel
    {
      && st.maxTw == table.maxTw && st.timers == timers && st.nodes == nodes && st.end == wheel.next.Length
      && st.time == wheel.time
    }

    ghost predicate RecordsFlat()
      reads this, conns, tws
    {
      && |st.connKeys| == |st.open| == conns.Length && |st.twKeys| == tws.Length
      && (forall id :: 0 <= id < conns.Length ==>
                         st.open[id] == conns[id].open && st.connKeys[id] == conns[id].key)
      && (forall tw :: 0 <= tw < tws.Length ==> st.twKeys[tw] == tws[tw].key)
    }

    /** What holds also while timers are being fired. */
    ghost predicate Running()
      reads this, table, table.keys, table.ids, table.conns, table.twIds, wheel, wheel.next, wheel.prev, wheel.expire,
            conns, tws
    {
      Parts() && Flat()
    }

    /** Table, wheel and value are each sound. (Comparing with `true` keeps the verifier from
        looking inside.) */
    ghost predicate Parts()
      reads this, table, table.keys, table.ids, table.conns, table.twIds, wheel, wheel.next, wheel.prev, wheel.expire
    {
      Rest() && table.Sound() == true
    }

    ghost predicate Rest()
      reads this, wheel, wheel.next, wheel.prev, wheel.expire
    {
      Shape() && wheel.Sound() == true && Sound(st) == true
    }

    ghost predicate Valid()
      reads this, table, table.keys, table.ids, table.conns, table.twIds, wheel, wheel.next, wheel.prev, wheel.expire,
            conns, tws
    {
      Running() && NoneAt(wheel.home, DUMP)
    }

    constructor (maxConn: nat, maxTw: nat, userTimers: nat, start: uint32)
      requires MaxTableSize(maxConn + maxTw) <= EMPTY_KEY
      ensures Valid() && table.maxConn == maxConn && table.maxTw == maxTw && wheel.now == start
      ensures st.contents == map[] && st.armed == map[]
    {
      timers := OWN + userTimers;
      table := new Table(maxConn, maxTw);
      nodes := Layout(HEADS + maxTw, OWN + userTimers, maxConn);
      LayoutIsLaid(HEADS + maxTw, OWN + userTimers, maxConn);
      wheel := new Wheel(LayoutEnd(HEADS + maxTw, OWN + userTimers, maxConn) - HEADS, start);
      conns := new Record[maxConn](_ => NO_RECORD);
      tws := new TwRecord[maxTw](_ => NO_TW);
      new;
      st := Fresh(maxTw, timers, nodes, wheel.next.Length, wheel.time, NO_RECORD.key);
    }

    /** Stops all timers of a connection. */
    method StopTimers(id: nat)
      requires Shape() && wheel.Sound() == true && id < table.maxConn
      modifies wheel`home, wheel.next, wheel.prev
      ensures wheel.Sound() == true && DumpSet(wheel.home) <= DumpSet(old(wheel.home))
      ensures var first := nodes[id];
              |wheel.home| == |wheel.due| && wheel.Armed() == Without(old(wheel.Armed()), first, first + timers)
    {
      assert Inside(nodes, timers, HEADS + table.maxTw, wheel.next.Length, id);
      wheel.StopRange(nodes[id], timers);
    }

    /** Closes a connection that is open. */
    method Shut(id: nat)
      requires Running() && id < table.maxConn && conns[id].open
      modifies this`st, conns, wheel`home, wheel.next, wheel.prev,
               table, table.keys, table.ids, table.conns, table.twIds
      ensures Running() && DumpSet(wheel.home) <= DumpSet(old(wheel.home)) && st == Closed(old(st), id)
      ensures conns[..] == old(conns[..])[id := old(conns[id]).(open := false, established := false)]
    {
      OpenIsStored(st, id);
      StopTimers(id);
      table.DelConnEntry(conns[id].key);
      MarkClosed(id);
    }

    /** The table and the timers of the connection are dealt with already. */
    method MarkClosed(id: nat)
      requires Parts() && Halfway(id) && conns[id].open
      requires table.contents == Closed(st, id).contents && wheel.Armed() == Closed(st, id).armed
      modifies this`st, conns
      ensures Running() && st == Closed(old(st), id)
      ensures conns[..] == old(conns[..])[id := old(conns[id]).(open := false, established := false)]
    {
      CloseStep(st, id);
      conns[id] := conns[id].(open := false, established := false);
      st := Closed(st, id);
    }

    /** The records are still those of the open connection `id`. */
    ghost predicate Halfway(id: nat)
      reads this, table, wheel, conns, tws
    {
      && RecordsFlat() && id < conns.Length
      && SameFrame() && |wheel.home| == |wheel.due|
    }

    /** `onClose`. A connection that is closed already stays as it is. */
    method OnClose(id: nat)
      requires Running() && id < table.maxConn
      modifies this`st, conns, wheel`home, wheel.next, wheel.prev,
               table, table.keys, table.ids, table.conns, table.twIds
      ensures Running() && DumpSet(wheel.home) <= DumpSet(old(wheel.home))
      ensures if old(conns[id]).open then
                && st == Closed(old(st), id)
                && conns[..] == old(conns[..])[id := old(conns[id]).(open := false, established := false)]
              else st == old(st) && conns[..] == old(conns[..])
    {
      if conns[id].open {
        Shut(id);
      }
    }

    /** `onClose` into TIME_WAIT: the key moves to a TIME_WAIT record whose timer is
        started, or is dropped when there is none left. */
    method EnterTimeWait(id: nat, ackNum: uint32) returns (tw: nat)
      requires Running() && id < table.maxConn && conns[id].open
      modifies this`st, conns, tws,
               wheel`home, wheel`rank, wheel`clock, wheel`due, wheel.next, wheel.prev, wheel.expire,
               table, table.keys, table.ids, table.conns, table.twIds
      ensures Running() && DumpSet(wheel.home) <= DumpSet(old(wheel.home))
      ensures conns[..] == old(conns[..])[id := old(conns[id]).(open := false, established := false)]
      ensures if old(table.twCnt) == table.maxTw then st == Closed(old(st), id)
              else && tw < table.maxTw && TwNode(tw) !in old(st).armed && tws[tw].ackNum == ackNum
                   && st == Entered(Closed(old(st), id), old(st).connKeys[id], tw)
    {
      tw := 0;
      if table.twCnt == table.maxTw {
        Shut(id);
      } else {
        tw := Park(id, ackNum);
      }
    }

    /** The same when there is a TIME_WAIT record left. */
    method Park(id: nat, ackNum: uint32) returns (tw: nat)
      requires Running() && id < table.maxConn && conns[id].open && table.twCnt != table.maxTw
      modifies this`st, conns, tws,
               wheel`home, wheel`rank, wheel`clock, wheel`due, wheel.next, wheel.prev, wheel.expire,
               table, table.keys, table.ids, table.conns, table.twIds
      ensures Running() && DumpSet(wheel.home) <= DumpSet(old(wheel.home))
      ensures conns[..] == old(conns[..])[id := old(conns[id]).(open := false, established := false)]
      ensures tw < table.maxTw && TwNode(tw) !in old(st).armed && tws[tw].ackNum == ackNum
      ensures st == Entered(Closed(old(st), id), old(st).connKeys[id], tw)
    {
      tw := Rename(id);
      TradeTimers(id, tw);
      MarkWaiting(tw, id, ackNum);
    }

    /** Trades the id of the connection for that of a TIME_WAIT record, in the table. */
    method Rename(id: nat) returns (tw: nat)
      requires Running() && id < table.maxConn && conns[id].open && table.twCnt != table.maxTw
      modifies table, table.keys, table.ids, table.conns, table.twIds
      ensures table.Sound() == true && tw < table.maxTw && Sound(Entered(Closed(st, id), st.connKeys[id], tw)) == true
      ensures table.contents == st.contents[st.connKeys[id] := table.maxConn + tw]
      ensures TwNode(tw) !in st.armed && TwNode(tw) !in Closed(st, id).armed
    {
      OpenIsStored(st, id);
      tw := table.EnterTw(conns[id].key);
      EnterStep(st, id, tw);
    }

    /** The timers of the connection stop, and that of the TIME_WAIT record starts. */
    method TradeTimers(id: nat, tw: nat)
      requires Shape() && wheel.Sound() == true && id < table.maxConn && tw < table.maxTw
      requires TwNode(tw) !in wheel.Armed()
      modifies wheel`home, wheel`rank, wheel`clock, wheel`due, wheel.next, wheel.prev, wheel.expire
      ensures wheel.Sound() == true && DumpSet(wheel.home) <= DumpSet(old(wheel.home)) && |wheel.home| == |wheel.due|
      ensures var first := nodes[id];
              wheel.Armed() == Without(old(wheel.Armed()), first, first + timers)[TwNode(tw) := wheel.time + TIME_WAIT]
    {
      assert Inside(nodes, timers, HEADS + table.maxTw, wheel.next.Length, id);
      StopTimers(id);
      wheel.Arm(HEADS + tw, TIME_WAIT);
    }

    /** Fills in the TIME_WAIT record. The table and the timers are dealt with already. */
    method MarkWaiting(tw: nat, id: nat, ackNum: uint32)
      requires Parts() && Halfway(id) && conns[id].open
      requires tw < table.maxTw && Sound(Entered(Closed(st, id), st.connKeys[id], tw)) == true
      requires table.contents == st.contents[st.connKeys[id] := table.maxConn + tw]
      requires wheel.Armed() == Closed(st, id).armed[TwNode(tw) := st.time + TIME_WAIT]
      modifies this`st, conns, tws
      ensures Running() && tws[tw].ackNum == ackNum
      ensures conns[..] == old(conns[..])[id := old(conns[id]).(open := false, established := false)]
      ensures st == Entered(Closed(old(st), id), old(st).connKeys[id], tw)
    {
      tws[tw] := TwRecord(conns[id].key, ackNum);
      conns[id] := conns[id].(open := false, established := false);
      st := Entered(Closed(st, id), st.connKeys[id], tw);
      assert RecordsFlat();
    }

    /** The end of TIME_WAIT by a RST: the timer stops, and the entry goes. */
    method EndTimeWait(tw: nat)
      requires Running() && tw < table.maxTw && TwNode(tw) in st.armed
      modifies this`st, wheel`home, wheel.next, wheel.prev, table, table.keys, table.ids, table.conns, table.twIds
      ensures Running() && st == Ended(old(st), tw)
      ensures DumpSet(wheel.home) <= DumpSet(old(wheel.home))
    {
      wheel.Stop(HEADS + tw);
      Expire(tw);
    }

    /** The entry of a TIME_WAIT record whose timer no longer runs. */
    method Expire(tw: nat)
      requires Parts() && RecordsFlat()
      requires SameFrame() && st.contents == table.contents
      requires tw < table.maxTw && TwNode(tw) in st.armed && wheel.Armed() == st.armed - {TwNode(tw)}
      modifies this`st, table, table.keys, table.ids, table.conns, table.twIds
      ensures Running() && st == Ended(old(st), tw)
    {
      EndStep(st, tw);
      table.DelConnEntry(tws[tw].key);
      st := Ended(st, tw);
    }

    // ---- handlers, and the clock ----

    /** Sets a timer of a connection. */
    method SetTimerOf(id: nat, timer: nat, duration: nat)
      requires Running() && MaySet(st, SetTimer(id, timer, duration))
      modifies this`st, wheel`home, wheel`rank, wheel`clock, wheel`due, wheel.next, wheel.prev, wheel.expire
      ensures Running() && st == AfterDeed(old(st), SetTimer(id, timer, duration))
      ensures DumpSet(wheel.home) <= DumpSet(old(wheel.home))
    {
      assert Inside(nodes, timers, HEADS + table.maxTw, wheel.next.Length, id);
      wheel.SetTimer(nodes[id] + timer, duration);
      st := AfterDeed(st, SetTimer(id, timer, duration));
    }

    /** A timer that an open connection has for itself is unlinked. */
    method UnlinkTimer(id: nat, timer: nat)
      requires Running() && id < table.maxConn && timer < OWN && conns[id].open
      modifies this`st, wheel`home, wheel.next, wheel.prev
      ensures Running() && id < |st.nodes| && st == old(st).(armed := old(st).armed - {ConnNode(st, id, timer)})
      ensures DumpSet(wheel.home) <= DumpSet(old(wheel.home))
    {
      assert Inside(nodes, timers, HEADS + table.maxTw, wheel.next.Length, id);
      wheel.Stop(nodes[id] + timer);
      FireStep(st, nodes[id] + timer);
      st := st.(armed := st.armed - {nodes[id] + timer});
    }

    /** And linked, for which it must not be linked already. */
    method LinkTimer(id: nat, timer: nat, duration: uint32)
      requires Running() && id < table.maxConn && timer < OWN && conns[id].open
      requires ConnNode(st, id, timer) !in st.armed
      modifies this`st, wheel`home, wheel`rank, wheel`clock, wheel`due, wheel.next, wheel.prev, wheel.expire
      ensures Running() && id < |st.nodes|
      ensures st == old(st).(armed := old(st).armed[ConnNode(st, id, timer) := st.time + Wait(st.time, duration)])
      ensures DumpSet(wheel.home) <= DumpSet(old(wheel.home))
    {
      assert Inside(nodes, timers, HEADS + table.maxTw, wheel.next.Length, id);
      wheel.Arm(nodes[id] + timer, duration);
      TimerStep(st, id, timer, st.armed[nodes[id] + timer := st.time + Wait(st.time, duration)]);
      st := st.(armed := st.armed[nodes[id] + timer := st.time + Wait(st.time, duration)]);
    }

    /** What a handler does. */
    method Perform(d: Deed)
      requires Running()
      modifies this`st, conns, wheel`home, wheel`rank, wheel`clock, wheel`due, wheel.next, wheel.prev, wheel.expire,
               table, table.keys, table.ids, table.conns, table.twIds
      ensures Running() && st == AfterDeed(old(st), d) && DumpSet(wheel.home) <= DumpSet(old(wheel.home))
      ensures RecordsKept(old(conns[..]), conns[..])
    {
      match d {
        case Close(id) =>
          if id < conns.Length {
            OnClose(id);
          }
        case SetTimer(id, timer, duration) =>
          if id < conns.Length && timer < timers && duration < TWO32 && (timer >= OWN || conns[id].open) {
            SetTimerOf(id, timer, duration);
          }
      }
    }

    method PerformAll(deeds: seq<Deed>)
      requires Running()
      modifies this`st, conns, wheel`home, wheel`rank, wheel`clock, wheel`due, wheel.next, wheel.prev, wheel.expire,
               table, table.keys, table.ids, table.conns, table.twIds
      ensures Running() && st == AfterDeeds(old(st), deeds, |deeds|)
      ensures DumpSet(wheel.home) <= DumpSet(old(wheel.home)) && RecordsKept(old(conns[..]), conns[..])
    {
      var i := 0;
      while i < |deeds|
        invariant i <= |deeds| && Running() && st == AfterDeeds(old(st), deeds, i)
        invariant DumpSet(wheel.home) <= DumpSet(old(wheel.home)) && RecordsKept(old(conns[..]), conns[..])
      {
        Perform(deeds[i]);
        i := i + 1;
      }
    }

    /** The next timer that is due fires. That of a TIME_WAIT record ends it; otherwise the
        handler of the connection is called, which does `deeds`. `s` is the server when the
        first one fired. */
    method FireNext(deeds: seq<Deed>, ghost s: Srv)
      requires Running() && wheel.next[DUMP] != DUMP && Firing(s, st)
      modifies this`st, conns, wheel`home, wheel`rank, wheel`clock, wheel`due, wheel.next, wheel.prev, wheel.expire,
               table, table.keys, table.ids, table.conns, table.twIds
      ensures Running() && Firing(s, st) && RecordsKept(old(conns[..]), conns[..])
      ensures DumpSet(wheel.home) < DumpSet(old(wheel.home))
    {
      var x := wheel.FireNext();
      if x < HEADS + table.maxTw {
        FiringEnded(s, st, x - HEADS);
        Expire(x - HEADS);
      } else {
        FireConn(x, deeds, s);
      }
    }

    /** Timer `x` of a connection has just fired. */
    method FireConn(x: nat, deeds: seq<Deed>, ghost s: Srv)
      requires Parts() && RecordsFlat() && Firing(s, st)
      requires SameFrame() && st.contents == table.contents
      requires HEADS + table.maxTw <= x && wheel.Armed() == st.armed - {x}
      modifies this`st, conns, wheel`home, wheel`rank, wheel`clock, wheel`due, wheel.next, wheel.prev, wheel.expire,
               table, table.keys, table.ids, table.conns, table.twIds
      ensures Running() && Firing(s, st) && RecordsKept(old(conns[..]), conns[..])
      ensures DumpSet(wheel.home) <= DumpSet(old(wheel.home))
    {
      FireStep(st, x);
      FiringDone(s, st, st.(armed := st.armed - {x}), {});
      st := st.(armed := st.armed - {x});
      ghost var s' := st;
      PerformAll(deeds);
      DeedsCloseOnly(s', deeds, |deeds|);
      FiringDone(s, s', st, ClosedIds(deeds, |deeds|, |s'.open|));
    }

    /** `pollTime`: if the clock does not show `ts` yet, it moves on by one tick, and what
        is due fires. `plan(i)` is what the handler does if the i-th to fire is a timer of
        a connection. */
    method Poll(ts: uint32, plan: nat -> seq<Deed>)
      requires Valid()
      modifies this`st, conns, wheel, wheel.next, wheel.prev, wheel.expire,
               table, table.keys, table.ids, table.conns, table.twIds
      ensures Valid() && RecordsKept(old(conns[..]), conns[..]) && Last(old(st), st, {})
      ensures if ts == old(wheel.now) then st == old(st) else st.time == old(st).time + 1
    {
      if ts == wheel.now {
        wheel.NoneDue();
        StayIsLast(st, st, {});
        return;
      }
      ghost var s := st;
      wheel.BeginTick();
      TickStep(st);
      st := st.(time := st.time + 1);
      ghost var s1 := st;
      var i := 0;
      while wheel.next[DUMP] != DUMP
        invariant Running() && Firing(s1, st) && RecordsKept(old(conns[..]), conns[..])
        decreases DumpSet(wheel.home)
      {
        FireNext(plan(i), s1);
        i := i + 1;
      }
      wheel.AllFired();
      TickIsLast(s, st);
    }

    /** What the application does between polls. */
    method Call(deeds: seq<Deed>)
      requires Valid()
      modifies this`st, conns, wheel`home, wheel`rank, wheel`clock, wheel`due, wheel.next, wheel.prev, wheel.expire,
               table, table.keys, table.ids, table.conns, table.twIds
      ensures Valid() && st == AfterDeeds(old(st), deeds, |deeds|) && Last(old(st), st, {})
      ensures RecordsKept(old(conns[..]), conns[..])
    {
      ghost var s := st;
      wheel.NoneDue();
      PerformAll(deeds);
      DeedsCloseOnly(s, deeds, |deeds|);
      ClosedStay(s, st, ClosedIds(deeds, |deeds|, |s.open|));
      StayIsLast(s, st, {});
      NoneDumped(old(wheel.home), wheel.home);
    }

    /** Ids and cells: a connection is open, and a TIME_WAIT timer runs, exactly when one
        cell of the table holds its id, and only one; and the two counters count cells. */
    lemma OneCellEach(id: nat)
      requires Running() && id < table.maxConn + table.maxTw
      ensures (if id < table.maxConn then conns[id].open else TwNode(id - table.maxConn) in wheel.Armed()) <==>
              exists e: nat :: HoldsId(table.keys[..], table.ids[..], e, id)
      ensures HeldOnce(table.keys[..], table.ids[..], id)
      ensures Occupied(table.keys[..], table.keys.Length) == table.connCnt + table.twCnt
    {
      assert Consistent(st);
      LinkedIffInUse(st, if id < table.maxConn then id else id - table.maxConn);
      Cells(id);
    }

    lemma Cells(id: nat)
      requires table.Sound()
      ensures InUse(table.contents, id) <==> exists e: nat :: HoldsId(table.keys[..], table.ids[..], e, id)
      ensures HeldOnce(table.keys[..], table.ids[..], id)
      ensures Occupied(table.keys[..], table.keys.Length) == table.connCnt + table.twCnt
    {
      assert table.Valid();
      EntryCount(table.keys[..], table.ids[..], table.tblMask + 1, table.contents);
      CellsOfId(table.keys[..], table.ids[..], table.tblMask + 1, table.contents, id);
    }

    // ---- packets ----

    /** The cell where the lookup of a key ends, and what it finds. */
    method Find(key: nat) returns (entry: nat, found: Found)
      requires Running() && key < EMPTY_KEY
      ensures found == Lookup(st, key)
      ensures found.Unknown? ==> IsSlot(table.keys[..], table.tblMask + 1, entry, key)
    {
      entry := table.FindConnEntry(key);
      found := Unknown;
      if table.keys[entry] == key {
        var id: nat := table.ids[entry];
        found := if id < table.maxConn then Conn(id) else Waiting(id - table.maxConn);
      }
    }

    /** The table did not grow, or it was safe to. */
    ghost predicate Grown(oldMask: nat)
      reads table
    {
      table.tblMask == oldMask || SafeToGrow(table.contents.Keys, oldMask + 1, table.keys.Length)
    }

    /** A new connection for a key that has none: it takes the next free id and expects what
        comes after the peer's SYN; its own SYN is sent, and the resend timer started. */
    method Accept(key: nat, entry: nat, seqNum: uint32) returns (id: nat)
      requires Running() && table.connCnt != table.maxConn && key < EMPTY_KEY && key !in table.contents
      requires IsSlot(table.keys[..], table.tblMask + 1, entry, key)
      modifies this`st, conns, wheel`home, wheel`rank, wheel`clock, wheel`due, wheel.next, wheel.prev, wheel.expire,
               table, table.keys, table.ids
      ensures id < table.maxConn && !old(conns[..])[id].open
      ensures conns[..] == old(conns[..])[id := NewRecord(key, seqNum, wheel.now)]
      ensures st == Accepted(old(st), key, id) && Rest() && Flat()
      ensures Stay(old(st), st, {}) && OthersStay(old(st), st, key, {})
      ensures Grown(old(table.tblMask)) ==> Running()
      ensures DumpSet(wheel.home) <= DumpSet(old(wheel.home))
    {
      id := table.Admit(entry, key);
      AcceptStep(st, key, id);
      Enlist(id, key, seqNum);
    }

    /** The part of it that is not about the table. */
    method Enlist(id: nat, key: nat, seqNum: uint32)
      requires Rest() && RecordsFlat() && id < table.maxConn && key < EMPTY_KEY && key !in st.contents
      requires !InUse(st.contents, id) && table.contents == st.contents[key := id] && wheel.Armed() == st.armed
      requires SameFrame()
      modifies this`st, conns, wheel`home, wheel`rank, wheel`clock, wheel`due, wheel.next, wheel.prev, wheel.expire
      ensures Rest() && Flat() && st == Accepted(old(st), key, id)
      ensures conns[..] == old(conns[..])[id := NewRecord(key, seqNum, wheel.now)]
      ensures DumpSet(wheel.home) <= DumpSet(old(wheel.home))
    {
      AcceptStep(st, key, id);
      assert Inside(nodes, timers, HEADS + table.maxTw, wheel.next.Length, id);
      wheel.Arm(nodes[id], SYN_RTO);
      conns[id] := NewRecord(key, seqNum, wheel.now);
      st := Accepted(st, key, id);
    }

    /** A packet for a key in TIME_WAIT. */
    method OnWaiting(s: Segment, key: nat, tw: nat) returns (act: Action)
      requires Running() && Lookup(st, key) == Waiting(tw) && tw < tws.Length
      modifies this`st, wheel`home, wheel.next, wheel.prev, table, table.keys, table.ids, table.conns, table.twIds
      ensures Running() && DumpSet(wheel.home) <= DumpSet(old(wheel.home))
      ensures st == if s.rst && s.seqNum == tws[tw].ackNum then Ended(old(st), tw) else old(st)
      ensures Stay(old(st), st, if s.rst && s.seqNum == tws[tw].ackNum then {key} else {})
      ensures OthersStay(old(st), st, key, {})
      ensures act == if s.rst || (s.seqNum == tws[tw].ackNum && !Occupies(s)) then Nothing else AckTimeWait
    {
      FoundIsLive(st, key);
      var expected := s.seqNum == tws[tw].ackNum;
      act := Nothing;
      if s.rst {
        if expected {
          EndStep(st, tw);
          EndTimeWait(tw);
        }
      } else if !expected || Occupies(s) {
        act := AckTimeWait;
      }
    }

    /** A packet for a connection that is not established yet. It is established, and the
        packet delivered, by an acknowledgement of our SYN. */
    method OnHandshake(s: Segment, id: nat) returns (act: Action)
      requires Running() && id < table.maxConn && conns[id].open && !conns[id].established
      modifies this`st, conns, wheel`home, wheel.next, wheel.prev,
               table, table.keys, table.ids, table.conns, table.twIds
      ensures Running() && DumpSet(wheel.home) <= DumpSet(old(wheel.home))
      ensures act == HandshakeAction(s, old(conns[id]), id)
      ensures st == if Resets(s, old(conns[id])) then Closed(old(st), id) else old(st)
      ensures conns[..] == old(conns[..])[id := old(conns[id]).(open := !Resets(s, old(conns[id])),
                                                                established := act.Delivered?)]
    {
      if s.syn && !s.ack {
        return ResendSyn(id);
      }
      if s.rst && s.seqNum == conns[id].rcvNext {
        OnClose(id);
        return Nothing;
      }
      if !s.ack {
        return Nothing;
      }
      if s.ackNum != conns[id].sndNext {
        return Reset;
      }
      conns[id] := conns[id].(established := true);
      act := Delivered(id);
    }

    /** What the connection made of the packet; `ackNum` is what it expects next. */
    method Conclude(id: nat, verdict: Verdict, ackNum: uint32) returns (ghost tw: nat)
      requires Running() && id < table.maxConn && conns[id].open && conns[id].established
      modifies this`st, conns, tws,
               wheel`home, wheel`rank, wheel`clock, wheel`due, wheel.next, wheel.prev, wheel.expire,
               table, table.keys, table.ids, table.conns, table.twIds
      ensures Running() && DumpSet(wheel.home) <= DumpSet(old(wheel.home))
      ensures Concluded(old(st), st, id, verdict, tw) && conns[id].open == (verdict == Going)
      ensures verdict == TimeWait && old(table.twCnt) != table.maxTw ==>
                tw < table.maxTw && tws[tw].ackNum == ackNum && Lookup(st, old(conns[id]).key) == Waiting(tw)
      ensures conns[..] == old(conns[..])[id := old(conns[id]).(open := verdict == Going,
                                                                established := verdict == Going)]
    {
      tw := 0;
      match verdict {
        case Going =>
        case Closing => OnClose(id);
        case TimeWait => var i := EnterTimeWait(id, ackNum); tw := i;
      }
    }

    /** A packet for an open connection. Once it is established, the packet is delivered:
        handlers do `deeds`, and unless they close the connection, `verdict` comes of it. */
    method OnConn(s: Segment, id: nat, deeds: seq<Deed>, verdict: Verdict, ackNum: uint32)
      returns (act: Action, ghost tw: nat)
      requires Running() && id < table.maxConn && conns[id].open
      modifies this`st, conns, tws,
               wheel`home, wheel`rank, wheel`clock, wheel`due, wheel.next, wheel.prev, wheel.expire,
               table, table.keys, table.ids, table.conns, table.twIds
      ensures Running() && DumpSet(wheel.home) <= DumpSet(old(wheel.home))
      ensures act == if old(conns[id]).established then Delivered(id) else HandshakeAction(s, old(conns[id]), id)
      ensures !act.Delivered? ==>
                st == if Resets(s, old(conns[id])) then Closed(old(st), id) else old(st)
      ensures act.Delivered? ==> AfterDelivery(old(st), st, id, deeds, verdict, tw)
      ensures Stay(old(st), st, {})
      ensures OthersStay(old(st), st, old(conns[id]).key,
                         if act.Delivered? then ClosedIds(deeds, |deeds|, conns.Length) else {})
    {
      ghost var s0 := st;
      act, tw := Delivered(id), 0;
      if !conns[id].established {
        act := OnHandshake(s, id);
      }
      if act.Delivered? {
        tw := Deliver(id, deeds, verdict, ackNum);
        DeliveryStay(s0, st, id, deeds, verdict, tw);
      } else {
        ConcludedStay(s0, st, id, if Resets(s, old(conns[id])) then Closing else Going, 0);
      }
    }

    method Deliver(id: nat, deeds: seq<Deed>, verdict: Verdict, ackNum: uint32) returns (ghost tw: nat)
      requires Running() && id < table.maxConn && conns[id].open && conns[id].established
      modifies this`st, conns, tws,
               wheel`home, wheel`rank, wheel`clock, wheel`due, wheel.next, wheel.prev, wheel.expire,
               table, table.keys, table.ids, table.conns, table.twIds
      ensures Running() && DumpSet(wheel.home) <= DumpSet(old(wheel.home))
      ensures AfterDelivery(old(st), st, id, deeds, verdict, tw)
    {
      tw := 0;
      PerformAll(deeds);
      assert SameOrClosed(old(conns[..])[id], conns[..][id]);
      if conns[id].open {
        tw := Conclude(id, verdict, ackNum);
      }
    }

    /** A packet of a peer that is not in the table. `allow` is what `allowNewConnection`
        says. */
    method OnUnknown(s: Segment, key: nat, entry: nat, allow: bool) returns (act: Action)
      requires Running() && key < EMPTY_KEY && key !in table.contents
      requires IsSlot(table.keys[..], table.tblMask + 1, entry, key)
      modifies this`st, conns, wheel`home, wheel`rank, wheel`clock, wheel`due, wheel.next, wheel.prev, wheel.expire,
               table, table.keys, table.ids
      ensures Rest() && Flat() && DumpSet(wheel.home) <= DumpSet(old(wheel.home))
      ensures Grown(old(table.tblMask)) ==> Running()
      ensures Stay(old(st), st, {}) && OthersStay(old(st), st, key, {})
      // a connection is opened exactly for a plain SYN, given room and leave
      ensures act.Opened? <==> s.syn && !s.ack && !s.rst && allow && old(table.connCnt) != table.maxConn
      ensures act.Opened? ==> && act.id < conns.Length && !old(conns[..])[act.id].open
                              && Lookup(st, key) == Conn(act.id)
                              && conns[act.id] == NewRecord(key, s.seqNum, wheel.now)
      // a RST is not answered
      ensures s.rst ==> act == Nothing
      ensures !act.Opened? ==> st == old(st) && (s.rst || act == Reset)
    {
      if s.rst {
        act := Nothing;
      } else if s.ack || !s.syn || table.connCnt == table.maxConn || !allow {
        act := Reset;
      } else {
        var id := Accept(key, entry, s.seqNum);
        act := Opened(id);
      }
    }

    /** A packet from anyone, as `pollNet` and `poll` dispatch it. `allow` is what
        `allowNewConnection` says. */
    method OnPacket(s: Segment, allow: bool, deeds: seq<Deed>, verdict: Verdict, ackNum: uint32)
      returns (act: Action, ghost ended: set<nat>)
      requires Valid()
      modifies this`st, conns, tws,
               wheel`home, wheel`rank, wheel`clock, wheel`due, wheel.next, wheel.prev, wheel.expire,
               table, table.keys, table.ids, table.conns, table.twIds
      ensures Rest() && Flat() && (Grown(old(table.tblMask)) ==> Valid())
      ensures Dispatched(s, allow && old(table.connCnt) != table.maxConn, deeds, verdict, wheel.now,
                         old(st), old(conns[..]), act, st, conns[..]) == true
      // what is in TIME_WAIT stays there, unless its peer sends the RST that is expected
      ensures Last(old(st), st, ended)
      ensures ended == if EndsWait(s, old(st), old(tws[..])) then {Key(s.peer)} else {}
    {
      wheel.NoneDue();
      act, ended := Route(s, allow, deeds, verdict, ackNum);
      StayIsLast(old(st), st, ended);
      NoneDumped(old(wheel.home), wheel.home);
    }

    method Route(s: Segment, allow: bool, deeds: seq<Deed>, verdict: Verdict, ackNum: uint32)
      returns (act: Action, ghost ended: set<nat>)
      requires Running()
      modifies this`st, conns, tws,
               wheel`home, wheel`rank, wheel`clock, wheel`due, wheel.next, wheel.prev, wheel.expire,
               table, table.keys, table.ids, table.conns, table.twIds
      ensures Rest() && Flat() && (Grown(old(table.tblMask)) ==> Running())
      ensures DumpSet(wheel.home) <= DumpSet(old(wheel.home))
      ensures Dispatched(s, allow && old(table.connCnt) != table.maxConn, deeds, verdict, wheel.now,
                         old(st), old(conns[..]), act, st, conns[..]) == true
      ensures Stay(old(st), st, ended)
      ensures ended == if EndsWait(s, old(st), old(tws[..])) then {Key(s.peer)} else {}
    {
      var key := Key(s.peer);
      ended := if EndsWait(s, st, tws[..]) then {key} else {};
      var entry, found := Find(key);
      if found.Unknown? {
        ghost var was, recs, room := st, conns[..], allow && table.connCnt != table.maxConn;
        act := OnUnknown(s, key, entry, allow);
        assert Dispatched(s, room, deeds, verdict, wheel.now, was, recs, act, st, conns[..]);
      } else {
        act := OnFound(s, found, allow && table.connCnt != table.maxConn, deeds, verdict, ackNum, ended);
      }
    }

    /** A packet of a peer that is in the table. */
    method OnFound(s: Segment, found: Found, room: bool, deeds: seq<Deed>, verdict: Verdict, ackNum: uint32,
                   ghost ended: set<nat>) returns (act: Action)
      requires Running() && found == Lookup(st, Key(s.peer)) && !found.Unknown?
      requires ended == if EndsWait(s, st, tws[..]) then {Key(s.peer)} else {}
      modifies this`st, conns, tws,
               wheel`home, wheel`rank, wheel`clock, wheel`due, wheel.next, wheel.prev, wheel.expire,
               table, table.keys, table.ids, table.conns, table.twIds
      ensures Running() && DumpSet(wheel.home) <= DumpSet(old(wheel.home)) && Stay(old(st), st, ended)
      ensures Dispatched(s, room, deeds, verdict, wheel.now, old(st), old(conns[..]), act, st, conns[..]) == true
    {
      ghost var was, recs := st, conns[..];
      FoundIsLive(st, Key(s.peer));
      if found.Waiting? {
        act := OnWaiting(s, Key(s.peer), found.id);
        WaitingDispatched(s, room, deeds, verdict, wheel.now, was, recs, act, st, conns[..]);
      } else {
        ghost var tw;
        act, tw := OnConn(s, found.id, deeds, verdict, ackNum);
        ConnDispatched(s, room, deeds, verdict, wheel.now, was, recs, act, st, conns[..], tw);
      }
    }
  }

  /** What is done about a packet, from `st` and `conns` to `st'` and `conns'` at time `now`;
      `room` says whether a connection may be opened. */
  ghost predicate Dispatched(s: Segment, room: bool, deeds: seq<Deed>, verdict: Verdict, now: uint32,
                             st: Srv, conns: seq<Record>, act: Action, st': Srv, conns': seq<Record>) {
    var key := Key(s.peer);
    // no other peer's entry is touched, unless a handler closes that connection
    && OthersStay(st, st', key, if act.Delivered? then ClosedIds(deeds, |deeds|, |conns|) else {})
    // a connection is opened exactly for a plain SYN of a new peer, given room and leave
    && (act.Opened? <==> Lookup(st, key) == Unknown && s.syn && !s.ack && !s.rst && room)
    && (act.Opened? ==>
          && act.id < |conns| == |conns'| && !conns[act.id].open && Lookup(st', key) == Conn(act.id)
          && conns'[act.id] == NewRecord(key, s.seqNum, now))
    // a packet is delivered to the connection of its peer, once that is established
    && (act.Delivered? <==> Delivers(s, st, conns))
    && (act.Delivered? ==>
          && Lookup(st, key) == Conn(act.id) && Sound(st)
          && exists tw: nat :: AfterDelivery(st, st', act.id, deeds, verdict, tw))
    // a RST of an unknown peer is not answered
    && (Lookup(st, key) == Unknown && s.rst ==> act == Nothing)
  }

  lemma WaitingDispatched(s: Segment, room: bool, deeds: seq<Deed>, verdict: Verdict, now: uint32,
                          st: Srv, conns: seq<Record>, act: Action, st': Srv, conns': seq<Record>)
    requires Lookup(st, Key(s.peer)).Waiting? && OthersStay(st, st', Key(s.peer), {})
    requires act.Nothing? || act.AckTimeWait?
    ensures Dispatched(s, room, deeds, verdict, now, st, conns, act, st', conns')
  {
  }

  lemma ConnDispatched(s: Segment, room: bool, deeds: seq<Deed>, verdict: Verdict, now: uint32,
                       st: Srv, conns: seq<Record>, act: Action, st': Srv, conns': seq<Record>, tw: nat)
    requires Sound(st) && (act.Delivered? ==> AfterDelivery(st, st', act.id, deeds, verdict, tw))
    requires Lookup(st, Key(s.peer)).Conn? && Lookup(st, Key(s.peer)).id < |conns|
    requires var id := Lookup(st, Key(s.peer)).id;
             act == if conns[id].established then Delivered(id) else HandshakeAction(s, conns[id], id)
    requires OthersStay(st, st', Key(s.peer), if act.Delivered? then ClosedIds(deeds, |deeds|, |conns|) else {})
    ensures Dispatched(s, room, deeds, verdict, now, st, conns, act, st', conns')
  {
  }

  ghost predicate HoldsId(keys: seq<nat>, ids: seq<nat>, e: nat, id: nat) {
    e < |keys| == |ids| && keys[e] != EMPTY_KEY && ids[e] == id
  }

  ghost predicate HeldOnce(keys: seq<nat>, ids: seq<nat>, id: nat) {
    forall e: nat, e': nat :: HoldsId(keys, ids, e, id) && HoldsId(keys, ids, e', id) ==> e == e'
  }

  lemma CellsOfId(keys: seq<nat>, ids: seq<nat>, size: nat, m: map<nat, nat>, id: nat)
    requires Ordered(keys, size) && Represents(keys, ids, m) && Injective(m)
    ensures InUse(m, id) <==> exists e: nat :: HoldsId(keys, ids, e, id)
    ensures HeldOnce(keys, ids, id)
  {
    if InUse(m, id) {
      var k :| k in m && m[k] == id;
      assert Stored(keys, k);
      var e: nat :| e < |keys| && keys[e] == k;
      assert CellReads(keys, ids, m, e) && HoldsId(keys, ids, e, id);
    }
    forall e: nat | HoldsId(keys, ids, e, id)
      ensures keys[e] in m && m[keys[e]] == id && Sole(m, keys[e])
    {
      assert CellReads(keys, ids, m, e);
    }
    forall e: nat, e': nat | HoldsId(keys, ids, e, id) && HoldsId(keys, ids, e', id)
      ensures e == e'
    {
      assert Sole(m, keys[e]);
      KeysDistinct(keys, size, e, e');
    }
  }

  /** A connection that is opened by a SYN with `seqNum` at time `now`. */
  function NewRecord(key: nat, seqNum: uint32, now: uint32): (r: Record) {
    Record(key, true, false, U32(seqNum + 1), U32(U32(key + now) + 1))
  }

  /** The RST that is expected of a peer in TIME_WAIT. */
  predicate EndsWait(s: Segment, st: Srv, tws: seq<TwRecord>) {
    && s.rst && Lookup(st, Key(s.peer)).Waiting?
    && var tw := Lookup(st, Key(s.peer)).id;
       tw < |tws| && s.seqNum == tws[tw].ackNum
  }

  /** The packet is for an open connection, which is established or becomes so by it. */
  predicate Delivers(s: Segment, st: Srv, conns: seq<Record>) {
    && Lookup(st, Key(s.peer)).Conn?
    && var id := Lookup(st, Key(s.peer)).id;
       id < |conns| && (conns[id].established || HandshakeAction(s, conns[id], id).Delivered?)
  }

  predicate Occupies(s: Segment) {
    s.size > 0 || s.syn || s.fin
  }

  /** The packet resets a connection that is not established yet. */
  predicate Resets(s: Segment, r: Record) {
    !(s.syn && !s.ack) && s.rst && s.seqNum == r.rcvNext
  }

  function HandshakeAction(s: Segment, r: Record, id: nat): (act: Action) {
    if s.syn && !s.ack then ResendSyn(id)
    else if Resets(s, r) || !s.ack then Nothing
    else if s.ackNum == r.sndNext then Delivered(id)
    else Reset
  }

  /** Records stay, but connections may be closed. */
  predicate RecordsKept(was: seq<Record>, now: seq<Record>) {
    |was| == |now| && forall i :: 0 <= i < |was| ==> SameOrClosed(was[i], now[i])
  }

  predicate SameOrClosed(was: Record, now: Record) {
    now == was || (was.open && now == was.(open := false, established := false))
  }
}

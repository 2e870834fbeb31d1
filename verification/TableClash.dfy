/** A table that doubling breaks: connections of one peer address, from 64 ports. */
module TableClash {
  import opened Words
  import opened OrderedProbing
  import opened TableGrowth
  import opened ConnTable
  import opened ServerSpec

  /** The ports, in the order the connections are opened. */
  function ClashPort(i: nat): (port: uint16)
    requires i < 64
  {
    if i == 0 then 640 else if i <= 61 then i else if i == 62 then 127 else 383
  }

  ghost function ClashKeys(ip: uint32, n: nat): (ks: set<nat>)
    requires n <= 64
  {
    set i: nat | i < n :: Key(Peer(ip, ClashPort(i)))
  }

  /** Half full at the initial size 128: ports 127 and 383 share home 127, so 383
      overflows into cell 128, the new home of the larger port 640. */
  function Clash(ip: uint32, cells: nat): (tbl: seq<nat>)
    requires cells >= 256
    ensures |tbl| == cells
  {
    var b := ip * 0x8000;
    seq(cells, p requires 0 <= p < cells =>
      if p == 0 then b + 640 else if p <= 61 then b + p
      else if p == 127 then b + 127 else if p == 128 then b + 383 else EMPTY_KEY)
  }

  lemma HomeOf(ip: uint32, port: nat)
    requires port < 0x8000
    ensures Home(ip * 0x8000 + port, 128) == port % 128 && Home(ip * 0x8000 + port, 256) == port % 256
  {
    ModShift(port, ip * 256, 128);
    ModShift(port, ip * 128, 256);
  }

  lemma {:induction false} ClashCount(ip: uint32, cells: nat, n: nat)
    requires 256 <= cells && n <= cells
    ensures Occupied(Clash(ip, cells), n)
            == if n <= 62 then n else if n <= 127 then 62 else if n == 128 then 63 else 64
  {
    if n > 0 {
      ClashCount(ip, cells, n - 1);
    }
  }

  lemma ClashIsOrdered(ip: uint32, cells: nat)
    requires cells >= 256
    ensures Ordered(Clash(ip, cells), 128)
    ensures Ordered(Clash(ip, cells)[0 := EMPTY_KEY][128 := ip * 0x8000 + 640], 256)
  {
    var tbl, b := Clash(ip, cells), ip * 0x8000;
    var front: seq<nat> := tbl[0 := EMPTY_KEY][128 := b + 640];
    forall p: nat | p < |tbl|
      ensures WellPlaced(tbl, 128, p) && WellPlaced(front, 256, p)
    {
      HomeOf(ip, if p == 0 then 640 else if p == 128 then 383 else if p < 128 then p else 0);
      HomeOf(ip, 640);
    }
  }

  /** The table is ordered and due to double, yet not safe: rehashing 383 stops
      on 640, which the first pass has just moved into cell 128. */
  lemma ClashIsUnsafe(ip: uint32, cells: nat)
    requires cells >= 256
    ensures Ordered(Clash(ip, cells), 128) && Occupied(Clash(ip, cells), cells) == 64
    ensures !GrowSafe(Clash(ip, cells), 128)
  {
    var tbl := Clash(ip, cells);
    ClashCount(ip, cells, cells);
    ClashIsOrdered(ip, cells);
    var front: seq<nat> := tbl[0 := EMPTY_KEY][128 := ip * 0x8000 + 640];
    assert KeysOf(front) == KeysOf(tbl[..128]) by {
      forall k | k != EMPTY_KEY
        ensures k in front <==> k in tbl[..128]
      {
        if k in front {
          var p :| 0 <= p < |front| && front[p] == k;
          assert tbl[..128][if p == 128 then 0 else p] == k;
        }
        if k in tbl[..128] {
          var p :| 0 <= p < 128 && tbl[..128][p] == k;
          assert front[if p == 0 then 128 else p] == k;
        }
      }
    }
    HomeOf(ip, 383);
    assert IsSlot(front, 256, 128, tbl[128]);
    assert !SafeAt(tbl, 128, 128);
  }

  lemma OneMoreKey(ip: uint32, i: nat)
    requires i < 64
    ensures var key := Key(Peer(ip, ClashPort(i)));
            key !in ClashKeys(ip, i) && ClashKeys(ip, i + 1) == ClashKeys(ip, i) + {key}
  {
  }

  /** These are the keys of the clashing table. */
  lemma ClashHasKeys(ip: uint32, cells: nat)
    requires cells >= 256
    ensures KeysOf(Clash(ip, cells)) == ClashKeys(ip, 64)
  {
    var tbl := Clash(ip, cells);
    forall k | k in ClashKeys(ip, 64)
      ensures k in tbl && k != EMPTY_KEY
    {
      var i: nat :| i < 64 && k == Key(Peer(ip, ClashPort(i)));
      assert tbl[if i <= 61 then i else if i == 62 then 127 else 128] == k;
    }
    forall k | k in tbl && k != EMPTY_KEY
      ensures k in ClashKeys(ip, 64)
    {
      var p :| 0 <= p < |tbl| && tbl[p] == k;
      var i: nat := if p <= 61 then p else if p == 127 then 62 else 63;
      assert k == Key(Peer(ip, ClashPort(i)));
    }
  }

  lemma ClashKeysUnsafe(ip: uint32, cells: nat)
    requires cells >= 256
    ensures !SafeToGrow(ClashKeys(ip, 64), 128, cells)
  {
    ClashIsUnsafe(ip, cells);
    ClashHasKeys(ip, cells);
    SafeLayout(Clash(ip, cells), 128);
  }

  lemma LargeEnough(maxEntries: nat)
    requires maxEntries >= 64
    ensures MaxTableSize(maxEntries) >= 256
  {
    Pow2Add(4, 3);
    assert Pow2(4) == 16 && Pow2(3) == 8;
    var e := 1 + Msb(maxEntries);
    Pow2Monotone(e, 7);
    Pow2Monotone(8, e);
  }

  /** From every peer address, 64 connections bring it about: the table is then no longer
      that of the connections that have been opened. */
  method LosesEntry(ip: uint32, maxConn: nat, maxTw: nat) returns (t: Table)
    requires maxConn >= 64 && MaxTableSize(maxConn + maxTw) <= EMPTY_KEY
    ensures t.contents.Keys == ClashKeys(ip, 64) && !Represents(t.keys[..], t.ids[..], t.contents)
  {
    t := new Table(maxConn, maxTw);
    LargeEnough(maxConn + maxTw);
    OpenAll(t, ip);
  }

  method OpenAll(t: Table, ip: uint32)
    requires t.Sound() == true && t.maxConn >= 64 && t.connCnt == t.twCnt == 0 && t.contents == map[]
    requires t.tblMask == 127 && t.keys.Length >= 256
    modifies t`connCnt, t`contents, t`tblMask, t.keys, t.ids
    ensures t.contents.Keys == ClashKeys(ip, 64) && !Represents(t.keys[..], t.ids[..], t.contents)
  {
    var i := 0;
    while i < 63
      invariant i <= 63 && t.Sound() == true && t.connCnt == i && t.tblMask == 127
      invariant t.contents.Keys == ClashKeys(ip, i)
    {
      Open(t, ip, i);
      i := i + 1;
    }
    Open(t, ip, 63);
    ClashKeysUnsafe(ip, t.keys.Length);
  }

  /** Opens the next connection. */
  method Open(t: Table, ip: uint32, i: nat)
    requires t.Sound() == true && i < 64 && t.connCnt == i < t.maxConn && t.twCnt == 0 && t.tblMask == 127
    requires t.contents.Keys == ClashKeys(ip, i)
    modifies t`connCnt, t`contents, t`tblMask, t.keys, t.ids
    ensures t.contents.Keys == ClashKeys(ip, i + 1) && t.connCnt == i + 1
    ensures i < 63 ==> t.Sound() == true && t.tblMask == 127
    ensures i == 63 && !SafeToGrow(t.contents.Keys, 128, t.keys.Length) ==>
              !Represents(t.keys[..], t.ids[..], t.contents)
  {
    OneMoreKey(ip, i);
    var key := Key(Peer(ip, ClashPort(i)));
    var entry := t.FindConnEntry(key);
    var id := t.Admit(entry, key);
  }
}

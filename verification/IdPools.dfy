/** The pools of connection ids. The part of a pool from `cnt` on lists the free
    ids; the ids in use are exactly those the connection map hands out. */
module IdPools {

  /** The keys whose ids lie in a range of ids. */
  ghost function KeysWithIds(m: map<nat, nat>, lo: nat, hi: nat): (s: set<nat>) {
    set k | k in m && lo <= m[k] < hi
  }

  /** No other key has the id of `k`. */
  ghost predicate Sole(m: map<nat, nat>, k: nat)
    requires k in m
  {
    forall k' :: k' in m && m[k'] == m[k] ==> k' == k
  }

  ghost predicate Injective(m: map<nat, nat>) {
    forall k {:trigger Sole(m, k)} :: k in m ==> Sole(m, k)
  }

  ghost predicate InUse(m: map<nat, nat>, id: nat) {
    exists k :: k in m && m[k] == id
  }

  ghost predicate Free(pool: seq<nat>, cnt: nat, id: nat) {
    exists i :: cnt <= i < |pool| && pool[i] == id
  }

  /** An id is free or in use, and never both. */
  ghost predicate Shared(pool: seq<nat>, cnt: nat, base: nat, m: map<nat, nat>, id: nat) {
    Free(pool, cnt, id) <==> !InUse(m, base + id)
  }

  /** Entry `i` is an id of the pool and is not listed again after it. */
  ghost predicate ListedOnce(pool: seq<nat>, i: nat)
    requires i < |pool|
  {
    pool[i] < |pool| && forall j :: i < j < |pool| ==> pool[j] != pool[i]
  }

  /** The free part of the pool and the map share the ids `base .. base + |pool|`
      out between them: each is free or in use and never both, no id is listed
      twice, and `cnt` ids are in use. */
  ghost predicate PoolOk(pool: seq<nat>, cnt: nat, base: nat, m: map<nat, nat>) {
    && cnt <= |pool|
    && cnt == |KeysWithIds(m, base, base + |pool|)|
    && (forall i: nat :: cnt <= i < |pool| ==> ListedOnce(pool, i))
    && (forall id: nat :: id < |pool| ==> Shared(pool, cnt, base, m, id))
  }

  lemma InjectiveExtended(m: map<nat, nat>, k: nat, v: nat)
    requires Injective(m) && k !in m && !InUse(m, v)
    ensures Injective(m[k := v]) && |m[k := v]| == |m| + 1
  {
    var m' := m[k := v];
    assert m'.Keys == m.Keys + {k};
    assert forall k' :: k' in m && m[k'] == v ==> InUse(m, v);
    forall k' | k' in m'
      ensures Sole(m', k')
    {
      if k' in m {
        assert Sole(m, k') && m'[k'] == m[k'];
      }
    }
  }

  lemma InjectiveReduced(m: map<nat, nat>, k: nat)
    requires Injective(m) && k in m
    ensures Injective(m - {k}) && |m - {k}| == |m| - 1 && !InUse(m - {k}, m[k])
  {
    var m' := m - {k};
    assert m'.Keys == m.Keys - {k} && Sole(m, k);
    forall k' | k' in m'
      ensures Sole(m', k')
    {
      assert Sole(m, k');
    }
  }

  /** The next free id of a pool that has one is not in use. */
  lemma NextIsFree(pool: seq<nat>, cnt: nat, base: nat, m: map<nat, nat>)
    requires PoolOk(pool, cnt, base, m) && cnt < |pool|
    ensures pool[cnt] < |pool| && !InUse(m, base + pool[cnt])
  {
    assert ListedOnce(pool, cnt);
    assert Free(pool, cnt, pool[cnt]) && Shared(pool, cnt, base, m, pool[cnt]);
  }

  lemma Taken(pool: seq<nat>, cnt: nat, base: nat, m: map<nat, nat>, k: nat)
    requires PoolOk(pool, cnt, base, m) && cnt < |pool| && k !in m
    ensures PoolOk(pool, cnt + 1, base, m[k := base + pool[cnt]])
  {
    var cnt', m' := cnt + 1, m[k := base + pool[cnt]];
    assert ListedOnce(pool, cnt);
    assert KeysWithIds(m', base, base + |pool|) == KeysWithIds(m, base, base + |pool|) + {k};
    forall id: nat | id < |pool|
      ensures Shared(pool, cnt', base, m', id)
    {
      assert Shared(pool, cnt, base, m, id);
      if id == pool[cnt] {
        assert m'[k] == base + id;
      } else if InUse(m, base + id) {
        var k' :| k' in m && m[k'] == base + id;
        assert m'[k'] == base + id;
      } else {
        var i :| cnt <= i < |pool| && pool[i] == id;
      }
    }
  }

  lemma Released(pool: seq<nat>, cnt: nat, base: nat, m: map<nat, nat>, k: nat)
    requires PoolOk(pool, cnt, base, m) && Injective(m)
    requires k in m && base <= m[k] < base + |pool|
    ensures cnt > 0 && PoolOk(pool[cnt - 1 := m[k] - base], cnt - 1, base, m - {k})
  {
    var used, m', pool' := KeysWithIds(m, base, base + |pool|), m - {k}, pool;
    assert k in used;
    assert KeysWithIds(m', base, base + |pool|) == used - {k};
    var cnt' := cnt - 1;
    pool' := pool[cnt' := m[k] - base];
    assert InUse(m, m[k]) && Sole(m, k);
    forall i: nat | cnt' <= i < |pool'|
      ensures ListedOnce(pool', i)
    {
      forall j: nat | cnt <= j < |pool|
        ensures pool[j] != m[k] - base
      {
        assert ListedOnce(pool, j) && Free(pool, cnt, pool[j]) && Shared(pool, cnt, base, m, pool[j]);
      }
      assert i >= cnt ==> ListedOnce(pool, i);
    }
    forall id: nat | id < |pool|
      ensures Shared(pool', cnt', base, m', id)
    {
      assert Shared(pool, cnt, base, m, id);
      if id == m[k] - base {
        assert pool'[cnt - 1] == id;
      } else if InUse(m, base + id) {
        var k' :| k' in m && m[k'] == base + id;
        assert m'[k'] == base + id;
        assert Free(pool', cnt - 1, id) ==> Free(pool, cnt, id);
      } else {
        var i :| cnt <= i < |pool| && pool[i] == id;
        assert pool'[i] == id;
      }
    }
  }

  ghost predicate AgreeBut(m: map<nat, nat>, m': map<nat, nat>, k: nat) {
    forall k' :: k' != k ==> (k' in m <==> k' in m') && (k' in m && k' in m' ==> m'[k'] == m[k'])
  }

  /** Ids of the other pool come and go without notice. */
  lemma OtherPool(pool: seq<nat>, cnt: nat, base: nat, m: map<nat, nat>, m': map<nat, nat>, k: nat)
    requires PoolOk(pool, cnt, base, m) && AgreeBut(m, m', k)
    requires k in m ==> !(base <= m[k] < base + |pool|)
    requires k in m' ==> !(base <= m'[k] < base + |pool|)
    ensures PoolOk(pool, cnt, base, m')
  {
    assert KeysWithIds(m', base, base + |pool|) == KeysWithIds(m, base, base + |pool|);
    forall id: nat | id < |pool|
      ensures Shared(pool, cnt, base, m', id)
    {
      assert Shared(pool, cnt, base, m, id);
      assert InUse(m, base + id) <==> InUse(m', base + id);
    }
  }

  /** Both pools: connections first, connections in TIME_WAIT after them. */
  ghost predicate PoolsOk(conns: seq<nat>, connCnt: nat, tws: seq<nat>, twCnt: nat, m: map<nat, nat>) {
    && Injective(m) && |m| == connCnt + twCnt
    && (forall k :: k in m ==> m[k] < |conns| + |tws|)
    && PoolOk(conns, connCnt, 0, m) && PoolOk(tws, twCnt, |conns|, m)
  }

  lemma ConnReleased(conns: seq<nat>, connCnt: nat, tws: seq<nat>, twCnt: nat, m: map<nat, nat>, k: nat)
    requires PoolsOk(conns, connCnt, tws, twCnt, m) && k in m && m[k] < |conns|
    ensures connCnt > 0 && PoolsOk(conns[connCnt - 1 := m[k]], connCnt - 1, tws, twCnt, m - {k})
  {
    InjectiveReduced(m, k);
    Released(conns, connCnt, 0, m, k);
    OtherPool(tws, twCnt, |conns|, m, m - {k}, k);
  }

  lemma TimeWaitReleased(conns: seq<nat>, connCnt: nat, tws: seq<nat>, twCnt: nat, m: map<nat, nat>, k: nat)
    requires PoolsOk(conns, connCnt, tws, twCnt, m) && k in m && m[k] >= |conns|
    ensures twCnt > 0 && PoolsOk(conns, connCnt, tws[twCnt - 1 := m[k] - |conns|], twCnt - 1, m - {k})
  {
    InjectiveReduced(m, k);
    Released(tws, twCnt, |conns|, m, k);
    OtherPool(conns, connCnt, 0, m, m - {k}, k);
  }

  /** Taking an id from one of two pools with disjoint ids. */
  lemma TakenBeside(pool: seq<nat>, cnt: nat, base: nat, other: seq<nat>, otherCnt: nat, otherBase: nat,
                    m: map<nat, nat>, k: nat, m': map<nat, nat>)
    requires PoolOk(pool, cnt, base, m) && PoolOk(other, otherCnt, otherBase, m) && Injective(m)
    requires k !in m && cnt < |pool| && m' == m[k := base + pool[cnt]]
    requires base + |pool| <= otherBase || otherBase + |other| <= base
    ensures pool[cnt] < |pool| && !InUse(m, base + pool[cnt])
    ensures PoolOk(pool, cnt + 1, base, m') && PoolOk(other, otherCnt, otherBase, m')
    ensures Injective(m') && |m'| == |m| + 1
  {
    NextIsFree(pool, cnt, base, m);
    InjectiveExtended(m, k, base + pool[cnt]);
    Taken(pool, cnt, base, m, k);
    OtherPool(other, otherCnt, otherBase, m, m', k);
  }

  lemma ConnTaken(conns: seq<nat>, connCnt: nat, tws: seq<nat>, twCnt: nat, m: map<nat, nat>, k: nat)
    requires PoolsOk(conns, connCnt, tws, twCnt, m) && k !in m && connCnt < |conns|
    ensures conns[connCnt] < |conns| && !InUse(m, conns[connCnt])
    ensures PoolsOk(conns, connCnt + 1, tws, twCnt, m[k := conns[connCnt]])
  {
    TakenBeside(conns, connCnt, 0, tws, twCnt, |conns|, m, k, m[k := conns[connCnt]]);
  }

  lemma TimeWaitTaken(conns: seq<nat>, connCnt: nat, tws: seq<nat>, twCnt: nat, m: map<nat, nat>, k: nat)
    requires PoolsOk(conns, connCnt, tws, twCnt, m) && k !in m && twCnt < |tws|
    ensures tws[twCnt] < |tws| && !InUse(m, |conns| + tws[twCnt])
    ensures PoolsOk(conns, connCnt, tws, twCnt + 1, m[k := |conns| + tws[twCnt]])
  {
    TakenBeside(tws, twCnt, |conns|, conns, connCnt, 0, m, k, m[k := |conns| + tws[twCnt]]);
  }

  /** Before any connection every id is free. */
  lemma NothingInUse(conns: seq<nat>, tws: seq<nat>)
    requires forall i :: 0 <= i < |conns| ==> conns[i] == i
    requires forall i :: 0 <= i < |tws| ==> tws[i] == i
    ensures PoolsOk(conns, 0, tws, 0, map[])
  {
    FullPool(conns, 0);
    FullPool(tws, |conns|);
  }

  lemma FullPool(pool: seq<nat>, base: nat)
    requires forall i :: 0 <= i < |pool| ==> pool[i] == i
    ensures PoolOk(pool, 0, base, map[])
  {
    assert KeysWithIds(map[], base, base + |pool|) == {};
    forall id: nat | id < |pool|
      ensures Shared(pool, 0, base, map[], id)
    {
      assert pool[id] == id;
    }
  }
}

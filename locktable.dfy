/**
 * The lock table with deadlock detection (`LockTable.java`).
 *
 * Five maps form a wait-for graph: `x2u` (the uids a transaction acquired, newest first), `u2x`
 * (the holder of each uid), `wait` (the transactions queued on a uid, newest first), `waitLock`
 * (the transactions currently blocked; the per-waiter `Lock` object is reduced to membership)
 * and `waitU` (the uid each blocked transaction waits for). A transaction waiting for `uid`
 * waits for its holder, so the graph is functional: xid -> u2x[waitU[xid]], and a deadlock is a
 * cycle in it.
 */
module LockTable {
  import opened Wrappers

  // ---------------------------------------------------------------------------------------------
  // The list helpers: lists kept in a map per key

  /** The list at `k`, or the empty list where there is none. */
  function Get(m: map<int, seq<int>>, k: int): seq<int>
  {
    if k in m then m[k] else []
  }

  /** `isInList`. */
  predicate InList(m: map<int, seq<int>>, k: int, v: int): (b: bool)
    ensures b <==> v in Get(m, k)
  {
    k in m && v in m[k]
  }

  /** `putIntoList`: `v` is added at the FRONT of the list at `k` (`add(0, v)`), which is
      created when missing. */
  function PutIntoList(m: map<int, seq<int>>, k: int, v: int): (r: map<int, seq<int>>)
    ensures r.Keys == m.Keys + {k} && r[k] == [v] + Get(m, k)
    ensures forall j :: j in m && j != k ==> r[j] == m[j]
  {
    m[k := [v] + Get(m, k)]
  }

  /** The list with its first occurrence of `v` removed. */
  function RemoveFirst(l: seq<int>, v: int): (r: seq<int>)
    ensures v in l ==> |r| == |l| - 1
    ensures v !in l ==> r == l
  {
    if l == [] then []
    else if l[0] == v then l[1..]
    else [l[0]] + RemoveFirst(l[1..], v)
  }

  /** Exactly one occurrence of `v` goes, when there is one. */
  lemma {:induction false} RemoveFirstMultiset(l: seq<int>, v: int)
    ensures multiset(RemoveFirst(l, v)) == if v in l then multiset(l) - multiset{v} else multiset(l)
  {
    if l != [] {
      assert l == [l[0]] + l[1..];
      if l[0] != v {
        RemoveFirstMultiset(l[1..], v);
      }
    }
  }

  /** `removeFromList`: the first occurrence of `v` is removed from the list at `k`, and a list
      left empty is dropped. */
  function RemoveFromList(m: map<int, seq<int>>, k: int, v: int): (r: map<int, seq<int>>)
    ensures r.Keys <= m.Keys && forall j :: j in m && j != k ==> j in r && r[j] == m[j]
    ensures k in r ==> r[k] != [] && multiset(r[k]) == multiset(m[k]) - multiset{v}
    ensures k in m && k !in r ==> multiset(m[k]) <= multiset{v}
  {
    RemoveFirstMultiset(Get(m, k), v);
    if k !in m then m
    else
      var l := RemoveFirst(m[k], v);
      if l == [] then m - {k} else m[k := l]
  }

  /** Removing what was just put back restores the map, when its lists are non-empty. */
  lemma RemoveUndoesPut(m: map<int, seq<int>>, k: int, v: int)
    requires forall j :: j in m ==> m[j] != []
    ensures RemoveFromList(PutIntoList(m, k, v), k, v) == m
  {
    var p := PutIntoList(m, k, v);
    assert RemoveFirst(p[k], v) == Get(m, k);
    if k in m {
      assert p[k := Get(m, k)] == m;
    } else {
      assert p - {k} == m;
    }
  }

  /** A prefix without `v` is kept, and removal happens after it. */
  lemma RemoveFirstAfter(l: seq<int>, v: int, i: nat)
    requires i <= |l| && v !in l[..i]
    ensures RemoveFirst(l, v) == l[..i] + RemoveFirst(l[i..], v)
  {
    if i > 0 {
      assert l[0] != v by {
        assert l[..i][0] == l[0];
      }
      assert l[1..][..i - 1] == l[..i][1..];
      RemoveFirstAfter(l[1..], v, i - 1);
      assert l[1..][i - 1..] == l[i..];
      assert l[..i] == [l[0]] + l[1..][..i - 1];
    } else {
      assert l[..0] == [] && l[0..] == l;
    }
  }

  /** Where the scan for `v` stops, the first occurrence is cut out. */
  lemma RemoveFirstAt(l: seq<int>, v: int, i: nat)
    requires i <= |l| && v !in l[..i] && (i < |l| ==> l[i] == v)
    ensures RemoveFirst(l, v) == if i < |l| then l[..i] + l[i + 1..] else l
  {
    RemoveFirstAfter(l, v, i);
    if i < |l| {
      assert l[i..] == [v] + l[i + 1..];
    } else {
      assert l[..i] == l && l[i..] == [];
    }
  }

  /** The `isInList` loop. */
  method IsInList(m: map<int, seq<int>>, k: int, v: int) returns (r: bool)
    ensures r <==> InList(m, k, v)
  {
    if k !in m {
      return false;
    }
    var l := m[k];
    var i := 0;
    while i < |l|
      invariant 0 <= i <= |l| && v !in l[..i]
    {
      if l[i] == v {
        return true;
      }
      assert l[..i + 1] == l[..i] + [l[i]];
      i := i + 1;
    }
    assert l[..i] == l;
    return false;
  }

  /** The `removeFromList` loop. */
  method RemoveFromListLoop(m: map<int, seq<int>>, k: int, v: int) returns (r: map<int, seq<int>>)
    ensures r == RemoveFromList(m, k, v)
  {
    if k !in m {
      return m;
    }
    var l := m[k];
    var i := 0;
    while i < |l| && l[i] != v
      invariant 0 <= i <= |l| && v !in l[..i]
    {
      assert l[..i + 1] == l[..i] + [l[i]];
      i := i + 1;
    }
    var rest := if i < |l| then l[..i] + l[i + 1..] else l;
    RemoveFirstAt(l, v, i);
    if |rest| == 0 {
      r := m - {k};
    } else {
      r := m[k := rest];
    }
  }

  // ---------------------------------------------------------------------------------------------
  // The wait-for graph

  /** The transaction `x` waits for: the holder of the uid it waits on. */
  function Succ(waitU: map<int, int>, u2x: map<int, int>, x: int): Option<int>
  {
    if x in waitU && waitU[x] in u2x then Some(u2x[waitU[x]]) else None
  }

  /** Where `n` steps along the graph from `x` lead, if that far. */
  function Walk(waitU: map<int, int>, u2x: map<int, int>, x: int, n: nat): Option<int>
  {
    if n == 0 then Some(x)
    else
      match Walk(waitU, u2x, x, n - 1)
      case None => None
      case Some(y) => Succ(waitU, u2x, y)
  }

  /** The walk from `x` stops. */
  ghost predicate Finite(waitU: map<int, int>, u2x: map<int, int>, x: int)
  {
    exists n: nat :: Walk(waitU, u2x, x, n).None?
  }

  /** The walk from `r` revisits a node. */
  ghost predicate ReachesCycle(waitU: map<int, int>, u2x: map<int, int>, r: int)
  {
    exists i: nat, j: nat :: i < j && Walk(waitU, u2x, r, j).Some? && Walk(waitU, u2x, r, i) == Walk(waitU, u2x, r, j)
  }


  /** `a` steps, then `b` steps. */
  lemma {:induction false} WalkAdd(waitU: map<int, int>, u2x: map<int, int>, x: int, a: nat, b: nat)
    ensures Walk(waitU, u2x, x, a + b)
            == match Walk(waitU, u2x, x, a) case None => None case Some(y) => Walk(waitU, u2x, y, b)
    decreases b
  {
    if b > 0 {
      WalkAdd(waitU, u2x, x, a, b - 1);
      assert a + b - 1 == a + (b - 1);
    }
  }

  /** A walk that reaches `n` steps reaches every shorter one. */
  lemma {:induction false} WalkPrefix(waitU: map<int, int>, u2x: map<int, int>, x: int, m: nat, n: nat)
    requires m <= n && Walk(waitU, u2x, x, n).Some?
    ensures Walk(waitU, u2x, x, m).Some?
    decreases n
  {
    if m < n {
      WalkPrefix(waitU, u2x, x, m, n - 1);
    }
  }

  /** A walk that revisits a node goes on forever. */
  lemma {:induction false} CycleNeverStops(waitU: map<int, int>, u2x: map<int, int>, r: int, i: nat, j: nat, n: nat)
    requires i < j && Walk(waitU, u2x, r, j).Some? && Walk(waitU, u2x, r, i) == Walk(waitU, u2x, r, j)
    ensures Walk(waitU, u2x, r, n).Some?
    decreases n
  {
    if n <= j {
      WalkPrefix(waitU, u2x, r, n, j);
    } else {
      var z := Walk(waitU, u2x, r, j).value;
      WalkAdd(waitU, u2x, r, j, n - j);
      WalkAdd(waitU, u2x, r, i, n - j);
      CycleNeverStops(waitU, u2x, r, i, j, i + (n - j));
    }
  }

  /** A walk that stops revisits no node. */
  lemma FiniteHasNoCycle(waitU: map<int, int>, u2x: map<int, int>, r: int)
    requires Finite(waitU, u2x, r)
    ensures !ReachesCycle(waitU, u2x, r)
  {
    var n: nat :| Walk(waitU, u2x, r, n).None?;
    if ReachesCycle(waitU, u2x, r) {
      var i: nat, j: nat :| i < j && Walk(waitU, u2x, r, j).Some? && Walk(waitU, u2x, r, i) == Walk(waitU, u2x, r, j);
      CycleNeverStops(waitU, u2x, r, i, j, n);
    }
  }

  /** The walk from `r` stops if the walk from a node on it does. */
  lemma FiniteBefore(waitU: map<int, int>, u2x: map<int, int>, r: int, k: nat, x: int)
    requires Walk(waitU, u2x, r, k) == Some(x) && Finite(waitU, u2x, x)
    ensures Finite(waitU, u2x, r)
  {
    var n: nat :| Walk(waitU, u2x, x, n).None?;
    WalkAdd(waitU, u2x, r, k, n);
  }

  /** The walk from a node on a stopping walk stops. */
  lemma FiniteAfter(waitU: map<int, int>, u2x: map<int, int>, r: int, k: nat, x: int)
    requires Walk(waitU, u2x, r, k) == Some(x) && Finite(waitU, u2x, r)
    ensures Finite(waitU, u2x, x)
  {
    var n: nat :| Walk(waitU, u2x, r, n).None?;
    if n <= k {
      WalkPrefix(waitU, u2x, r, n, k);
    } else {
      WalkAdd(waitU, u2x, r, k, n - k);
    }
  }

  /** A list of distinct elements of `S` is no longer than `S` is large. */
  lemma {:induction false} DistinctBounded(p: seq<int>, S: set<int>)
    requires forall i, j :: 0 <= i < j < |p| ==> p[i] != p[j]
    requires forall i :: 0 <= i < |p| ==> p[i] in S
    ensures |p| <= |S|
  {
    if p != [] {
      var last := p[|p| - 1];
      var q := p[..|p| - 1];
      forall i | 0 <= i < |q|
        ensures q[i] in S - {last}
      {
        assert q[i] == p[i];
      }
      DistinctBounded(q, S - {last});
    }
  }

  /** After one step the walk is on a transaction that holds a uid. */
  lemma {:induction false} WalkLandsOnHolder(waitU: map<int, int>, u2x: map<int, int>, r: int, n: nat, y: int)
    requires n > 0 && Walk(waitU, u2x, r, n) == Some(y)
    ensures exists u :: u in u2x && u2x[u] == y
  {
    assert Walk(waitU, u2x, r, n - 1).Some?;
    var p := Walk(waitU, u2x, r, n - 1).value;
    assert Succ(waitU, u2x, p) == Some(y);
    var u := waitU[p];
    assert u in u2x && u2x[u] == y;
  }

  /** A walk that reaches a cycle passes a holder that lies on the cycle. */
  lemma CycleHasHolder(waitU: map<int, int>, u2x: map<int, int>, r: int)
    requires ReachesCycle(waitU, u2x, r)
    ensures exists u :: u in u2x && ReachesCycle(waitU, u2x, u2x[u])
  {
    var i: nat, j: nat :| i < j && Walk(waitU, u2x, r, j).Some? && Walk(waitU, u2x, r, i) == Walk(waitU, u2x, r, j);
    var y := Walk(waitU, u2x, r, j).value;
    WalkLandsOnHolder(waitU, u2x, r, j, y);
    var u :| u in u2x && u2x[u] == y;
    WalkAdd(waitU, u2x, r, i, j - i);
    assert Walk(waitU, u2x, y, 0) == Walk(waitU, u2x, y, j - i);
  }

  // ---------------------------------------------------------------------------------------------
  // What `dfs` knows on reaching a node

  /** The stamps of `hasDeadLock` on reaching `x`: trees searched earlier carry smaller stamps and
      their walks stop; the nodes carrying the current stamp are exactly `path`, the walk from
      `root` so far, which leads to `x` and repeats no node. */
  ghost predicate DfsAt(waitU: map<int, int>, u2x: map<int, int>, xidStamp: map<int, int>, stamp: int,
                        root: int, path: seq<int>, x: int)
  {
    && stamp > 0
    && (forall y :: y in xidStamp ==> 0 < xidStamp[y] <= stamp)
    && (forall y :: y in xidStamp && xidStamp[y] < stamp ==> Finite(waitU, u2x, y))
    && (forall y :: y in xidStamp && xidStamp[y] == stamp ==> y in path)
    && (forall i :: 0 <= i < |path| ==> path[i] in xidStamp && xidStamp[path[i]] == stamp)
    && (forall i :: 0 <= i < |path| ==> Walk(waitU, u2x, root, i) == Some(path[i]))
    && Walk(waitU, u2x, root, |path|) == Some(x)
    && (forall i, j :: 0 <= i < j < |path| ==> path[i] != path[j])
    && |path| <= |u2x.Values| + 1
  }

  /** Reaching a node stamped in this tree closes a cycle. */
  lemma DfsRevisit(waitU: map<int, int>, u2x: map<int, int>, xidStamp: map<int, int>, stamp: int,
                   root: int, path: seq<int>, x: int)
    requires DfsAt(waitU, u2x, xidStamp, stamp, root, path, x) && x in xidStamp && xidStamp[x] == stamp
    ensures ReachesCycle(waitU, u2x, root) && root in xidStamp
  {
    var i :| 0 <= i < |path| && path[i] == x;
    assert Walk(waitU, u2x, root, 0) == Some(path[0]);
    assert Walk(waitU, u2x, root, i) == Walk(waitU, u2x, root, |path|);
  }

  /** Reaching a node of an earlier tree: the walk stops, and so does every stamped node's. */
  lemma DfsJoin(waitU: map<int, int>, u2x: map<int, int>, xidStamp: map<int, int>, stamp: int,
                root: int, path: seq<int>, x: int)
    requires DfsAt(waitU, u2x, xidStamp, stamp, root, path, x) && x in xidStamp && xidStamp[x] < stamp
    ensures !ReachesCycle(waitU, u2x, root) && root in xidStamp
    ensures forall y :: y in xidStamp ==> Finite(waitU, u2x, y)
  {
    if |path| > 0 {
      assert Walk(waitU, u2x, root, 0) == Some(path[0]);
    }
    FiniteBefore(waitU, u2x, root, |path|, x);
    StampedAreFinite(waitU, u2x, xidStamp, stamp, root, path);
    FiniteHasNoCycle(waitU, u2x, root);
  }

  /** Stamping a node that waits for nobody ends the walk. */
  lemma DfsEnd(waitU: map<int, int>, u2x: map<int, int>, xidStamp: map<int, int>, stamp: int,
               root: int, path: seq<int>, x: int)
    requires DfsAt(waitU, u2x, xidStamp, stamp, root, path, x) && x !in xidStamp && x !in waitU
    ensures var m := xidStamp[x := stamp];
      && !ReachesCycle(waitU, u2x, root) && root in m
      && (forall y :: y in m ==> 0 < m[y] <= stamp)
      && (forall y :: y in m ==> Finite(waitU, u2x, y))
  {
    var m := xidStamp[x := stamp];
    var p := path + [x];
    assert Walk(waitU, u2x, root, |p|).None?;
    forall i | 0 <= i < |p|
      ensures Walk(waitU, u2x, root, i) == Some(p[i])
    {
      if i < |path| {
        assert p[i] == path[i];
      }
    }
    StampedAreFinite(waitU, u2x, m, stamp, root, p);
    FiniteHasNoCycle(waitU, u2x, root);
    assert Walk(waitU, u2x, root, 0) == Some(p[0]);
  }

  /** Stamping a node that waits moves the search one step along the walk. */
  lemma DfsStep(waitU: map<int, int>, u2x: map<int, int>, xidStamp: map<int, int>, stamp: int,
                root: int, path: seq<int>, x: int)
    requires DfsAt(waitU, u2x, xidStamp, stamp, root, path, x) && x !in xidStamp
    requires x in waitU && waitU[x] in u2x
    ensures DfsAt(waitU, u2x, xidStamp[x := stamp], stamp, root, path + [x], u2x[waitU[x]])
  {
    var m := xidStamp[x := stamp];
    var p := path + [x];
    forall i | 0 <= i < |p|
      ensures p[i] in m && m[p[i]] == stamp
      ensures Walk(waitU, u2x, root, i) == Some(p[i])
      ensures p[i] in u2x.Values + {root}
    {
      if i < |path| {
        assert p[i] == path[i];
      }
      if i > 0 {
        WalkLandsOnHolder(waitU, u2x, root, i, p[i]);
      }
    }
    DistinctBounded(p, u2x.Values + {root});
  }

  /** Once the walk from `root` is known to stop, so do the walks from the nodes on it. */
  lemma StampedAreFinite(waitU: map<int, int>, u2x: map<int, int>, xidStamp: map<int, int>, stamp: int,
                         root: int, path: seq<int>)
    requires Finite(waitU, u2x, root)
    requires forall y :: y in xidStamp ==> xidStamp[y] <= stamp
    requires forall y :: y in xidStamp && xidStamp[y] < stamp ==> Finite(waitU, u2x, y)
    requires forall y :: y in xidStamp && xidStamp[y] == stamp ==> y in path
    requires forall i :: 0 <= i < |path| ==> Walk(waitU, u2x, root, i) == Some(path[i])
    ensures forall y :: y in xidStamp ==> Finite(waitU, u2x, y)
  {
    forall y | y in xidStamp
      ensures Finite(waitU, u2x, y)
    {
      if xidStamp[y] == stamp {
        var i :| 0 <= i < |path| && path[i] == y;
        FiniteAfter(waitU, u2x, root, i, y);
      }
    }
  }

  // ---------------------------------------------------------------------------------------------
  // The five maps as a value, and what each operation does to them

  datatype Tables = Tables(
    x2u: map<int, seq<int>>,
    u2x: map<int, int>,
    wait: map<int, seq<int>>,
    waitLock: set<int>,
    waitU: map<int, int>)

  /** What `add` tells its caller: go on (`null`), block on the returned lock, or a deadlock error. */
  datatype Outcome = NoWait | Wait | Deadlock

  const Empty: Tables := Tables(map[], map[], map[], {}, map[])

  /** Some transaction holding a lock reaches a cycle: what `hasDeadLock` decides. */
  ghost predicate Deadlocked(t: Tables)
  {
    exists r :: r in t.x2u && ReachesCycle(t.waitU, t.u2x, r)
  }

  /** Every transaction a blocked one waits for is known (the `u2x` lookup in `dfs` finds it). */
  predicate HoldersKnown(t: Tables)
  {
    forall x :: x in t.waitU ==> t.waitU[x] in t.u2x
  }

  /** The consistency the operations keep. */
  predicate Valid(t: Tables)
  {
    && HoldersKnown(t)
    && t.waitU.Keys <= t.waitLock
    && (forall x :: x in t.waitU ==> t.waitU[x] in t.wait && x in t.wait[t.waitU[x]])
    && (forall u :: u in t.wait ==> t.wait[u] != [])
  }

  /** Every held uid is in its holder's `x2u` list, so releasing that list releases it. */
  predicate Recorded(t: Tables)
  {
    forall u :: u in t.u2x ==> t.u2x[u] in t.x2u && u in t.x2u[t.u2x[u]]
  }

  /** The tables with xid queued on uid: the edge `add` tries before it looks for a cycle. */
  function Request(t: Tables, xid: int, uid: int): Tables
  {
    t.(waitU := t.waitU[xid := uid], wait := PutIntoList(t.wait, uid, xid))
  }

  /** `add(xid, uid)`. */
  ghost function AddSpec(t: Tables, xid: int, uid: int): (r: (Tables, Outcome))
    ensures r.0.x2u.Keys <= t.x2u.Keys + {xid}
    ensures r.1 == Wait ==> xid in r.0.waitLock && xid in r.0.waitU && r.0.waitU[xid] == uid
    ensures r.1 != Wait ==> r.0.waitLock == t.waitLock
    ensures r.1 != NoWait ==> r.0.u2x == t.u2x && r.0.x2u == t.x2u
  {
    if InList(t.x2u, xid, uid) then (t, NoWait)
    else if uid !in t.u2x then (t.(u2x := t.u2x[uid := xid], x2u := PutIntoList(t.x2u, xid, uid)), NoWait)
    else
      var w := Request(t, xid, uid);
      if Deadlocked(w) then (w.(waitU := w.waitU - {xid}, wait := RemoveFromList(w.wait, uid, xid)), Deadlock)
      else (w.(waitLock := w.waitLock + {xid}), Wait)
  }

  /** The index of the first transaction in `l` that still waits, or `|l|`. */
  function FirstWaiting(l: seq<int>, waitLock: set<int>): (i: nat)
    ensures i <= |l| && (i < |l| ==> l[i] in waitLock)
    ensures forall j :: 0 <= j < i ==> l[j] !in waitLock
  {
    if l == [] then 0
    else if l[0] in waitLock then 0
    else 1 + FirstWaiting(l[1..], waitLock)
  }

  /** The transaction `selectNewXID(uid)` hands `uid` to. */
  function NewHolder(t: Tables, uid: int): (r: Option<int>)
    ensures r.Some? ==> uid in t.wait && r.value in t.wait[uid] && r.value in t.waitLock
    ensures r.None? && uid in t.wait ==> forall x :: x in t.wait[uid] ==> x !in t.waitLock
  {
    if uid !in t.wait then None
    else
      var l := t.wait[uid];
      var i := FirstWaiting(l, t.waitLock);
      if i < |l| then Some(l[i]) else None
  }

  /** `selectNewXID(uid)` as the source writes it: the new holder's `x2u` is left alone. */
  function SelectAsWritten(t: Tables, uid: int): (r: Tables)
    ensures r.x2u == t.x2u && r.waitLock <= t.waitLock && r.waitU.Keys <= t.waitU.Keys
    ensures uid in r.u2x ==> r.u2x[uid] in t.waitLock && r.u2x[uid] !in r.waitLock
    ensures forall u :: u in r.u2x && u != uid ==> u in t.u2x && r.u2x[u] == t.u2x[u]
  {
    var u2x := t.u2x - {uid};
    if uid !in t.wait then t.(u2x := u2x)
    else
      var l := t.wait[uid];
      var i := FirstWaiting(l, t.waitLock);
      if i < |l| then
        var x := l[i];
        var rest := l[i + 1..];
        t.(u2x := u2x[uid := x], waitLock := t.waitLock - {x}, waitU := t.waitU - {x},
           wait := if rest == [] then t.wait - {uid} else t.wait[uid := rest])
      else t.(u2x := u2x, wait := t.wait - {uid})
  }

  /** `selectNewXID(uid)` with the handoff recorded in the new holder's `x2u` list. */
  function SelectSpec(t: Tables, uid: int): (r: Tables)
    ensures uid in r.u2x ==> r.u2x[uid] in r.x2u && uid in r.x2u[r.u2x[uid]]
    ensures r.u2x == SelectAsWritten(t, uid).u2x && r.waitU == SelectAsWritten(t, uid).waitU
  {
    var s := SelectAsWritten(t, uid);
    match NewHolder(t, uid)
    case None => s
    case Some(x) => s.(x2u := PutIntoList(s.x2u, x, uid))
  }

  /** The `remove` loop: each uid is popped off `x2u[xid]` and handed on. */
  function ReleaseAsWritten(t: Tables, xid: int, uids: seq<int>): (r: Tables)
    ensures uids != [] ==> r.x2u == t.x2u[xid := []]
    ensures uids == [] ==> r == t
    ensures r.waitLock <= t.waitLock && r.waitU.Keys <= t.waitU.Keys
    decreases |uids|
  {
    if uids == [] then t
    else ReleaseAsWritten(SelectAsWritten(t.(x2u := t.x2u[xid := uids[1..]]), uids[0]), xid, uids[1..])
  }

  /** The same loop with each handoff recorded in the new holder's `x2u` list. */
  function Release(t: Tables, xid: int, uids: seq<int>): (r: Tables)
    ensures uids == [] ==> r == t
    ensures r.waitLock <= t.waitLock && r.waitU.Keys <= t.waitU.Keys
    decreases |uids|
  {
    if uids == [] then t
    else Release(SelectSpec(t.(x2u := t.x2u[xid := uids[1..]]), uids[0]), xid, uids[1..])
  }

  /** The end of `remove`: xid leaves `waitU`, `x2u` and `waitLock`. */
  function Forget(t: Tables, xid: int): Tables
  {
    t.(waitU := t.waitU - {xid}, x2u := t.x2u - {xid}, waitLock := t.waitLock - {xid})
  }

  /** `remove(xid)` as the source writes it. */
  function RemoveAsWritten(t: Tables, xid: int): (r: Tables)
    ensures xid !in r.x2u && xid !in r.waitU && xid !in r.waitLock
  {
    Forget(if xid in t.x2u then ReleaseAsWritten(t, xid, t.x2u[xid]) else t, xid)
  }

  /** `remove(xid)` with handoffs recorded. */
  function RemoveSpec(t: Tables, xid: int): (r: Tables)
    ensures xid !in r.x2u && xid !in r.waitU && xid !in r.waitLock
  {
    Forget(if xid in t.x2u then Release(t, xid, t.x2u[xid]) else t, xid)
  }

  // ---------------------------------------------------------------------------------------------
  // Consistency

  /** `selectNewXID` keeps the tables consistent. */
  lemma SelectPreservesValid(t: Tables, uid: int)
    requires Valid(t)
    ensures Valid(SelectAsWritten(t, uid)) && Valid(SelectSpec(t, uid))
  {
    var s := SelectAsWritten(t, uid);
    if uid in t.wait {
      var l := t.wait[uid];
      var i := FirstWaiting(l, t.waitLock);
      forall x | x in s.waitU
        ensures s.waitU[x] in s.u2x && s.waitU[x] in s.wait && x in s.wait[s.waitU[x]]
      {
        if t.waitU[x] == uid {
          var j :| 0 <= j < |l| && l[j] == x;
          assert i <= j;
          assert j != i;
          assert l[i + 1..][j - i - 1] == x;
        }
      }
    } else {
      assert forall x :: x in t.waitU ==> t.waitU[x] != uid;
    }
  }

  lemma {:induction false} ReleasePreservesValid(t: Tables, xid: int, uids: seq<int>)
    requires Valid(t)
    ensures Valid(ReleaseAsWritten(t, xid, uids)) && Valid(Release(t, xid, uids))
    decreases |uids|
  {
    if uids != [] {
      var t' := t.(x2u := t.x2u[xid := uids[1..]]);
      SelectPreservesValid(t', uids[0]);
      ReleasePreservesValid(SelectAsWritten(t', uids[0]), xid, uids[1..]);
      ReleasePreservesValid(SelectSpec(t', uids[0]), xid, uids[1..]);
    }
  }

  /** `remove` keeps the tables consistent, whatever state xid is in. */
  lemma RemovePreservesValid(t: Tables, xid: int)
    requires Valid(t)
    ensures Valid(RemoveAsWritten(t, xid)) && Valid(RemoveSpec(t, xid))
  {
    if xid in t.x2u {
      ReleasePreservesValid(t, xid, t.x2u[xid]);
    }
  }

  /** `add` keeps the tables consistent, and keeps every held uid recorded. */
  lemma AddPreservesValid(t: Tables, xid: int, uid: int)
    requires Valid(t)
    ensures Valid(AddSpec(t, xid, uid).0)
    ensures Recorded(t) ==> Recorded(AddSpec(t, xid, uid).0)
  {
    if !InList(t.x2u, xid, uid) && uid in t.u2x {
      if Deadlocked(Request(t, xid, uid)) {
        RemoveUndoesPut(t.wait, uid, xid);
      }
    }
  }

  /** A deadlock leaves the tables as they were, but for the request itself. */
  lemma AddDeadlockRestores(t: Tables, xid: int, uid: int)
    requires Valid(t) && AddSpec(t, xid, uid).1 == Deadlock
    ensures AddSpec(t, xid, uid).0 == t.(waitU := t.waitU - {xid})
    ensures xid !in t.waitU ==> AddSpec(t, xid, uid).0 == t
  {
    RemoveUndoesPut(t.wait, uid, xid);
  }

  // ---------------------------------------------------------------------------------------------
  // What each operation does

  /** The three answers of `add`: a uid already held by xid or free needs no wait; otherwise xid
      is queued at the front of `wait[uid]` and blocks, unless that closes a cycle. */
  lemma AddOutcomes(t: Tables, xid: int, uid: int)
    ensures InList(t.x2u, xid, uid) ==> AddSpec(t, xid, uid) == (t, NoWait)
    ensures !InList(t.x2u, xid, uid) && uid !in t.u2x ==>
      var (r, o) := AddSpec(t, xid, uid);
      && o == NoWait && r.u2x == t.u2x[uid := xid] && xid in r.x2u && r.x2u[xid] == [uid] + Get(t.x2u, xid)
      && r.wait == t.wait && r.waitU == t.waitU && r.waitLock == t.waitLock
    ensures AddSpec(t, xid, uid).1 == Wait <==> !InList(t.x2u, xid, uid) && uid in t.u2x && !Deadlocked(Request(t, xid, uid))
    ensures AddSpec(t, xid, uid).1 == Deadlock <==> !InList(t.x2u, xid, uid) && uid in t.u2x && Deadlocked(Request(t, xid, uid))
    ensures var (r, o) := AddSpec(t, xid, uid);
      o == Wait ==>
        && r.waitU == t.waitU[xid := uid] && uid in r.wait && r.wait[uid] == [xid] + Get(t.wait, uid)
        && r.waitLock == t.waitLock + {xid} && r.u2x == t.u2x && r.x2u == t.x2u
  {
  }

  /** With every held uid recorded, a transaction never waits for a uid it holds itself. */
  lemma NoSelfWait(t: Tables, xid: int, uid: int)
    requires Recorded(t) && AddSpec(t, xid, uid).1 == Wait
    ensures uid in t.u2x && t.u2x[uid] != xid
  {
  }

  /** The queue is a stack: the transaction that blocked last is handed the uid first. */
  lemma NewestWaiterFirst(t: Tables, xid: int, uid: int)
    requires AddSpec(t, xid, uid).1 == Wait
    ensures NewHolder(AddSpec(t, xid, uid).0, uid) == Some(xid)
    ensures SelectSpec(AddSpec(t, xid, uid).0, uid).u2x[uid] == xid
  {
  }

  /** `selectNewXID` as written: the first queued transaction that still waits gets the uid and
      stops waiting, the entries before it are dropped, and `x2u` is not touched. */
  lemma HandoffAsWritten(t: Tables, uid: int)
    ensures var s := SelectAsWritten(t, uid);
      && s.x2u == t.x2u
      && (NewHolder(t, uid).None? ==> uid !in s.u2x && uid !in s.wait && s.waitU == t.waitU && s.waitLock == t.waitLock)
      && (NewHolder(t, uid).Some? ==>
            var x := NewHolder(t, uid).value;
            && x in t.waitLock && x in t.wait[uid]
            && s.u2x == t.u2x[uid := x] && s.waitU == t.waitU - {x} && s.waitLock == t.waitLock - {x}
            && x !in t.wait[uid][..FirstWaiting(t.wait[uid], t.waitLock)]
            && Get(s.wait, uid) == t.wait[uid][FirstWaiting(t.wait[uid], t.waitLock) + 1..])
  {
    if NewHolder(t, uid).Some? {
      var l := t.wait[uid];
      var i := FirstWaiting(l, t.waitLock);
      assert l[i] in l;
    }
  }

  // ---------------------------------------------------------------------------------------------
  // The wait-for graph stays acyclic

  /** No transaction's walk revisits a node. */
  ghost predicate NoCycle(t: Tables)
  {
    forall x :: !ReachesCycle(t.waitU, t.u2x, x)
  }

  /** With every held uid recorded, `hasDeadLock`'s roots see every cycle there is. */
  lemma DeadlockedIffCycle(t: Tables)
    requires Recorded(t)
    ensures Deadlocked(t) <==> !NoCycle(t)
  {
    if !NoCycle(t) {
      var x :| ReachesCycle(t.waitU, t.u2x, x);
      CycleHasHolder(t.waitU, t.u2x, x);
      var u :| u in t.u2x && ReachesCycle(t.waitU, t.u2x, t.u2x[u]);
      assert t.u2x[u] in t.x2u;
    }
  }

  /** Graph 2 takes graph 1's steps, except steps into `sink`, which is a dead end in graph 2. */
  ghost predicate StepsKept(w1: map<int, int>, u1: map<int, int>, w2: map<int, int>, u2: map<int, int>, sink: Option<int>)
  {
    && (sink.Some? ==> Succ(w2, u2, sink.value).None?)
    && (forall x :: Succ(w2, u2, x).Some? && Succ(w2, u2, x) != sink ==> Succ(w1, u1, x) == Succ(w2, u2, x))
  }

  lemma {:induction false} WalkKept(w1: map<int, int>, u1: map<int, int>, w2: map<int, int>, u2: map<int, int>, sink: Option<int>, r: int, n: nat)
    requires StepsKept(w1, u1, w2, u2, sink)
    requires Walk(w2, u2, r, n).Some? && Walk(w2, u2, r, n) != sink
    ensures Walk(w1, u1, r, n) == Walk(w2, u2, r, n)
  {
    if n > 0 {
      var p := Walk(w2, u2, r, n - 1).value;
      if n - 1 > 0 {
        assert Walk(w2, u2, r, n - 1) != sink;
      }
      if Walk(w2, u2, r, n - 1) != sink {
        WalkKept(w1, u1, w2, u2, sink, r, n - 1);
      }
    }
  }

  /** A cycle of graph 2 is one of graph 1. */
  lemma CycleKept(w1: map<int, int>, u1: map<int, int>, w2: map<int, int>, u2: map<int, int>, sink: Option<int>, r: int)
    requires StepsKept(w1, u1, w2, u2, sink) && ReachesCycle(w2, u2, r)
    ensures ReachesCycle(w1, u1, r)
  {
    var i: nat, j: nat :| i < j && Walk(w2, u2, r, j).Some? && Walk(w2, u2, r, i) == Walk(w2, u2, r, j);
    CycleNeverStops(w2, u2, r, i, j, j + 1);
    WalkKept(w1, u1, w2, u2, sink, r, i);
    WalkKept(w1, u1, w2, u2, sink, r, j);
  }

  lemma NoCycleKept(t1: Tables, t2: Tables, sink: Option<int>)
    requires StepsKept(t1.waitU, t1.u2x, t2.waitU, t2.u2x, sink) && NoCycle(t1)
    ensures NoCycle(t2)
  {
    forall x
      ensures !ReachesCycle(t2.waitU, t2.u2x, x)
    {
      if ReachesCycle(t2.waitU, t2.u2x, x) {
        CycleKept(t1.waitU, t1.u2x, t2.waitU, t2.u2x, sink, x);
      }
    }
  }

  /** A handoff only redirects the waiters of uid to the new holder, which waits for nobody. */
  lemma SelectKeepsNoCycle(t: Tables, uid: int)
    requires NoCycle(t)
    ensures NoCycle(SelectAsWritten(t, uid)) && NoCycle(SelectSpec(t, uid))
  {
    var s := SelectAsWritten(t, uid);
    var sink := NewHolder(t, uid);
    forall x | Succ(s.waitU, s.u2x, x).Some? && Succ(s.waitU, s.u2x, x) != sink
      ensures Succ(t.waitU, t.u2x, x) == Succ(s.waitU, s.u2x, x)
    {
      assert s.waitU[x] != uid;
    }
    NoCycleKept(t, s, sink);
    assert SelectSpec(t, uid).waitU == s.waitU && SelectSpec(t, uid).u2x == s.u2x;
  }

  lemma {:induction false} ReleaseKeepsNoCycle(t: Tables, xid: int, uids: seq<int>)
    requires NoCycle(t)
    ensures NoCycle(ReleaseAsWritten(t, xid, uids)) && NoCycle(Release(t, xid, uids))
    decreases |uids|
  {
    if uids != [] {
      var t' := t.(x2u := t.x2u[xid := uids[1..]]);
      SelectKeepsNoCycle(t', uids[0]);
      ReleaseKeepsNoCycle(SelectAsWritten(t', uids[0]), xid, uids[1..]);
      ReleaseKeepsNoCycle(SelectSpec(t', uids[0]), xid, uids[1..]);
    }
  }

  /** `remove` never creates a cycle. */
  lemma RemoveKeepsNoCycle(t: Tables, xid: int)
    requires NoCycle(t)
    ensures NoCycle(RemoveAsWritten(t, xid)) && NoCycle(RemoveSpec(t, xid))
  {
    var a := if xid in t.x2u then ReleaseAsWritten(t, xid, t.x2u[xid]) else t;
    var b := if xid in t.x2u then Release(t, xid, t.x2u[xid]) else t;
    if xid in t.x2u {
      ReleaseKeepsNoCycle(t, xid, t.x2u[xid]);
    }
    NoCycleKept(a, Forget(a, xid), None);
    NoCycleKept(b, Forget(b, xid), None);
  }

  /** With every held uid recorded, `add` never lets a cycle in. */
  lemma AddKeepsNoCycle(t: Tables, xid: int, uid: int)
    requires Valid(t) && Recorded(t) && NoCycle(t)
    ensures NoCycle(AddSpec(t, xid, uid).0)
  {
    var r := AddSpec(t, xid, uid).0;
    if !InList(t.x2u, xid, uid) {
      if uid !in t.u2x {
        forall x | Succ(r.waitU, r.u2x, x).Some?
          ensures Succ(t.waitU, t.u2x, x) == Succ(r.waitU, r.u2x, x)
        {
          assert t.waitU[x] != uid;
        }
        NoCycleKept(t, r, None);
      } else if Deadlocked(Request(t, xid, uid)) {
        RemoveUndoesPut(t.wait, uid, xid);
        NoCycleKept(t, r, None);
      } else {
        var w := Request(t, xid, uid);
        assert Recorded(w);
        DeadlockedIffCycle(w);
      }
    }
  }

  // ---------------------------------------------------------------------------------------------
  // What `remove` releases

  /** Part way through `remove(xid)`: the uids xid still holds are among `rem`, the others are
      recorded, and xid is not blocked. */
  ghost predicate Releasing(s: Tables, xid: int, rem: seq<int>)
  {
    && xid !in s.waitLock
    && (forall u :: u in s.u2x && s.u2x[u] == xid ==> u in rem)
    && (forall u :: u in s.u2x && s.u2x[u] != xid ==> s.u2x[u] in s.x2u && u in s.x2u[s.u2x[u]])
  }

  lemma {:induction false} ReleaseRecords(s: Tables, xid: int, rem: seq<int>)
    requires Releasing(s, xid, rem)
    ensures Releasing(Release(s, xid, rem), xid, [])
    decreases |rem|
  {
    if rem != [] {
      var s' := s.(x2u := s.x2u[xid := rem[1..]]);
      var n := SelectSpec(s', rem[0]);
      forall u | u in n.u2x && n.u2x[u] == xid
        ensures u in rem[1..]
      {
        assert u != rem[0];
        assert u in rem;
      }
      forall u | u in n.u2x && n.u2x[u] != xid
        ensures n.u2x[u] in n.x2u && u in n.x2u[n.u2x[u]]
      {
        if u != rem[0] {
          assert n.u2x[u] == s.u2x[u];
        }
      }
      ReleaseRecords(n, xid, rem[1..]);
    }
  }

  /** With every held uid recorded, a transaction that is not blocked holds nothing once it is
      removed, and every uid stays recorded. */
  lemma RemoveReleases(t: Tables, xid: int)
    requires Recorded(t) && xid !in t.waitLock
    ensures var r := RemoveSpec(t, xid);
      && xid !in r.x2u && xid !in r.waitU && xid !in r.waitLock
      && (forall u :: u in r.u2x ==> r.u2x[u] != xid)
      && Recorded(r)
  {
    var e := if xid in t.x2u then Release(t, xid, t.x2u[xid]) else t;
    if xid in t.x2u {
      ReleaseRecords(t, xid, t.x2u[xid]);
    }
    assert Releasing(e, xid, []);
  }

  lemma {:induction false} ReleaseAsWrittenFrees(s: Tables, xid: int, rem: seq<int>, done: set<int>)
    requires xid !in s.waitLock && forall u :: u in done && u in s.u2x ==> s.u2x[u] != xid
    ensures var e := ReleaseAsWritten(s, xid, rem);
      && xid !in e.waitLock
      && forall u :: (u in done || u in rem) && u in e.u2x ==> e.u2x[u] != xid
    decreases |rem|
  {
    if rem != [] {
      var s' := s.(x2u := s.x2u[xid := rem[1..]]);
      var n := SelectAsWritten(s', rem[0]);
      assert forall u :: u in done + {rem[0]} && u in n.u2x ==> n.u2x[u] != xid;
      ReleaseAsWrittenFrees(n, xid, rem[1..], done + {rem[0]});
      assert forall u :: u in rem ==> u == rem[0] || u in rem[1..];
    }
  }

  /** `remove` as written: a transaction that is not blocked loses every uid of its `x2u` list. */
  lemma RemoveAsWrittenFrees(t: Tables, xid: int)
    requires xid !in t.waitLock
    ensures var r := RemoveAsWritten(t, xid);
      && xid !in r.x2u && xid !in r.waitU && xid !in r.waitLock
      && forall u :: u in Get(t.x2u, xid) && u in r.u2x ==> r.u2x[u] != xid
  {
    if xid in t.x2u {
      ReleaseAsWrittenFrees(t, xid, t.x2u[xid], {});
    }
  }

  /** Transaction 1 holds uid 7 and transaction 2 waits for it. */
  const Handoff0: Tables := Tables(map[1 := [7]], map[7 := 1], map[7 := [2]], {2}, map[2 := 7])

  /** As written, removing 1 hands 7 to 2 without recording it in `x2u`, so removing 2 leaves 7
      held by a finished transaction, and a later request for 7 blocks for good. */
  lemma LockLeakAsWritten()
    ensures Valid(Handoff0) && Recorded(Handoff0)
    ensures var t1 := RemoveAsWritten(Handoff0, 1);
      && t1.u2x == map[7 := 2] && 2 !in t1.x2u && !Recorded(t1)
      && RemoveAsWritten(t1, 2).u2x == map[7 := 2]
      && AddSpec(RemoveAsWritten(t1, 2), 3, 7).1 == Wait
  {
    assert FirstWaiting([2], {2}) == 0;
    var t1 := RemoveAsWritten(Handoff0, 1);
    assert t1 == Tables(map[], map[7 := 2], map[], {}, map[]);
    assert RemoveAsWritten(t1, 2) == t1;
    assert !Deadlocked(Request(t1, 3, 7));
  }

  /** As written, once 2 has been handed 7, asking for 7 again makes 2 wait for itself: a cycle
      that `hasDeadLock` does not see, because 2 is not a key of `x2u`. */
  lemma SelfWaitAsWritten()
    ensures var t1 := RemoveAsWritten(Handoff0, 1);
      && AddSpec(t1, 2, 7).1 == Wait
      && ReachesCycle(Request(t1, 2, 7).waitU, Request(t1, 2, 7).u2x, 2)
  {
    assert FirstWaiting([2], {2}) == 0;
    var t1 := RemoveAsWritten(Handoff0, 1);
    assert t1 == Tables(map[], map[7 := 2], map[], {}, map[]);
    var w := Request(t1, 2, 7);
    assert Walk(w.waitU, w.u2x, 2, 1) == Some(2);
    assert !Deadlocked(w);
  }

  /** With the handoff recorded, removing 1 and then 2 frees 7. */
  lemma HandoffRecorded()
    ensures RemoveSpec(Handoff0, 1) == Tables(map[2 := [7]], map[7 := 2], map[], {}, map[])
    ensures RemoveSpec(RemoveSpec(Handoff0, 1), 2).u2x == map[]
  {
    var c0 := Handoff0.(x2u := map[1 := []]);
    assert FirstWaiting([2], {2}) == 0;
    assert NewHolder(c0, 7) == Some(2);
    assert SelectAsWritten(c0, 7) == Tables(map[1 := []], map[7 := 2], map[], {}, map[]);
    assert [7] + Get(map[1 := []], 2) == [7];
    assert PutIntoList(map[1 := []], 2, 7) == map[1 := [], 2 := [7]];
    assert SelectSpec(c0, 7) == Tables(map[1 := [], 2 := [7]], map[7 := 2], map[], {}, map[]);
  }

  // ---------------------------------------------------------------------------------------------
  // The table object

  class LockTable {
    var x2u: map<int, seq<int>>
    var u2x: map<int, int>
    var wait: map<int, seq<int>>
    var waitLock: set<int>
    var waitU: map<int, int>
    var xidStamp: map<int, int>
    var stamp: int

    ghost function State(): Tables
      reads this
    {
      Tables(x2u, u2x, wait, waitLock, waitU)
    }

    constructor()
      ensures State() == Empty && Valid(State()) && Recorded(State())
    {
      x2u := map[];
      u2x := map[];
      wait := map[];
      waitLock := {};
      waitU := map[];
      xidStamp := map[];
      stamp := 0;
    }

    /** `add`: the answer and the new tables are those of `AddSpec`. */
    method Add(xid: int, uid: int) returns (r: Outcome)
      requires HoldersKnown(State())
      modifies this
      ensures (State(), r) == AddSpec(old(State()), xid, uid)
    {
      var held := IsInList(x2u, xid, uid);
      if held {
        return NoWait;
      }
      if uid !in u2x {
        u2x := u2x[uid := xid];
        x2u := PutIntoList(x2u, xid, uid);
        return NoWait;
      }
      waitU := waitU[xid := uid];
      wait := PutIntoList(wait, uid, xid);
      var d := HasDeadLock();
      if d {
        waitU := waitU - {xid};
        wait := RemoveFromListLoop(wait, uid, xid);
        return Deadlock;
      }
      waitLock := waitLock + {xid};
      return Wait;
    }

    /** `remove`: every uid of `x2u[xid]` is popped and handed on, then xid is forgotten. */
    method Remove(xid: int)
      modifies this
      ensures State() == RemoveAsWritten(old(State()), xid)
    {
      if xid in x2u {
        var l := x2u[xid];
        while |l| > 0
          invariant ReleaseAsWritten(State(), xid, l) == ReleaseAsWritten(old(State()), xid, old(x2u)[xid])
          decreases |l|
        {
          var uid := l[0];
          l := l[1..];
          x2u := x2u[xid := l];
          SelectNewXid(uid);
        }
      }
      waitU := waitU - {xid};
      x2u := x2u - {xid};
      waitLock := waitLock - {xid};
    }

    /** `selectNewXID`: the first queued transaction that still waits gets uid; as in the source,
        its `x2u` list is left alone. */
    method SelectNewXid(uid: int)
      modifies this
      ensures State() == SelectAsWritten(old(State()), uid)
    {
      u2x := u2x - {uid};
      if uid !in wait {
        return;
      }
      var l := wait[uid];
      ghost var l0 := l;
      ghost var k := 0;
      while |l| > 0
        invariant 0 <= k <= |l0| && l == l0[k..]
        invariant forall j :: 0 <= j < k ==> l0[j] !in waitLock
        invariant State() == old(State()).(u2x := old(u2x) - {uid})
      {
        var x := l[0];
        l := l[1..];
        k := k + 1;
        if x !in waitLock {
          continue;
        }
        u2x := u2x[uid := x];
        waitLock := waitLock - {x};
        waitU := waitU - {x};
        break;
      }
      if |l| == 0 {
        wait := wait - {uid};
      } else {
        wait := wait[uid := l];
      }
    }

    /** `hasDeadLock`: a depth-first search from every key of `x2u`, each tree with its own stamp. */
    method HasDeadLock() returns (b: bool)
      requires HoldersKnown(State())
      modifies this
      ensures State() == old(State())
      ensures b == Deadlocked(State())
    {
      xidStamp := map[];
      stamp := 1;
      var keys := x2u.Keys;
      while keys != {}
        invariant keys <= x2u.Keys && State() == old(State()) && stamp >= 1
        invariant forall y :: y in xidStamp ==> 0 < xidStamp[y] <= stamp
        invariant forall y :: y in xidStamp ==> Finite(waitU, u2x, y)
        invariant forall r :: r in x2u && r !in keys ==> r in xidStamp
        decreases keys
      {
        ghost var some := Pick(keys);
        var x :| x in keys;
        keys := keys - {x};
        if x in xidStamp && xidStamp[x] > 0 {
          continue;
        }
        stamp := stamp + 1;
        b := Dfs(x, x, []);
        if b {
          return true;
        }
      }
      forall r | r in x2u
        ensures !ReachesCycle(waitU, u2x, r)
      {
        FiniteHasNoCycle(waitU, u2x, r);
      }
      return false;
    }

    /** `dfs`: follows the walk from `root`; `path` holds the nodes stamped in this tree so far,
        and `x` is the node the walk has reached. */
    method Dfs(x: int, ghost root: int, ghost path: seq<int>) returns (b: bool)
      requires HoldersKnown(State())
      requires DfsAt(waitU, u2x, xidStamp, stamp, root, path, x)
      modifies this
      ensures State() == old(State()) && stamp == old(stamp)
      ensures forall y :: y in xidStamp ==> 0 < xidStamp[y] <= stamp
      ensures old(xidStamp).Keys <= xidStamp.Keys && root in xidStamp
      ensures b <==> ReachesCycle(waitU, u2x, root)
      ensures !b ==> forall y :: y in xidStamp ==> Finite(waitU, u2x, y)
      decreases |u2x.Values| + 1 - |path|
    {
      if x in xidStamp && xidStamp[x] == stamp {
        DfsRevisit(waitU, u2x, xidStamp, stamp, root, path, x);
        return true;
      }
      if x in xidStamp && xidStamp[x] < stamp {
        DfsJoin(waitU, u2x, xidStamp, stamp, root, path, x);
        return false;
      }
      ghost var before := xidStamp;
      xidStamp := xidStamp[x := stamp];
      if x !in waitU {
        DfsEnd(waitU, u2x, before, stamp, root, path, x);
        return false;
      }
      var y := u2x[waitU[x]];
      DfsStep(waitU, u2x, before, stamp, root, path, x);
      b := Dfs(y, root, path + [x]);
    }
  }
}

/**
 * The B+ tree driver (`BPlusTree.java`): the boot record that holds the root's uid, the descent
 * to a leaf, the rightward chase along sibling links, range search over the leaf chain, and
 * insertion with splits propagated up to a new root.
 *
 * `Node` (the node layout and its per-node operations) and the `DataManager` are not part of this
 * model. They are the oracle functions of a `NodeOps` value over an abstract store `S`, and every
 * node operation sees the store it is applied to. Their loops terminate only on a well-formed
 * tree, so `WellFormed` states what the driver relies on: a child lies a level lower than the
 * internal node that names it, and a sibling lies further right on the same level.
 */
module BPlusTree {
  import opened Bytes
  import opened Page
  import opened Wrappers
  import DataItem

  /** `TransactionManagerImpl.SUPER_XID`: every write of the index is made under it. */
  const SUPER_XID: int := 0

  /** A Java `long`; uid 0 stands for "no node". */
  type Long = x: int | IsInt64(x)

  datatype SearchNextRes = SearchNextRes(uid: Long, siblingUid: Long)
  datatype LeafSearchRangeRes = LeafSearchRangeRes(uids: seq<Long>, siblingUid: Long)
  datatype InsertAndSplitRes = InsertAndSplitRes(siblingUid: Long, newSon: Long, newKey: Long)
  datatype InsertRes = InsertRes(newNode: Long, newKey: Long)

  /**
   * The node layer and the data manager. `insert` and `read` are `DataManager.insert(SUPER_XID, ·)`
   * and the data of `DataManager.read`; `level` and `toRight` are a node's height above the leaves
   * and its distance from the right end of its level, measures that only the proofs use.
   */
  datatype NodeOps<!S> = NodeOps(
    isLeaf: (S, Long) -> bool,
    searchNext: (S, Long, Long) -> SearchNextRes,
    leafSearchRange: (S, Long, Long, Long) -> LeafSearchRangeRes,
    insertAndSplit: (S, Long, Long, Long) -> (S, InsertAndSplitRes),
    newNilRootRaw: seq<Byte>,
    newRootRaw: (Long, Long, Long) -> seq<Byte>,
    insert: (S, seq<Byte>) -> (S, Long),
    read: (S, Long) -> Option<seq<Byte>>,
    level: (S, Long) -> nat,
    toRight: (S, Long) -> nat)

  /** An internal node either names a child one level down or sends the search to its right
      sibling, an internal node of the same level. */
  ghost predicate InnerNodesDescend<S(!new)>(ops: NodeOps<S>)
  {
    forall s, u, k :: !ops.isLeaf(s, u) ==>
      if ops.searchNext(s, u, k).uid != 0 then
        ops.level(s, ops.searchNext(s, u, k).uid) < ops.level(s, u)
      else
        && !ops.isLeaf(s, ops.searchNext(s, u, k).siblingUid)
        && ops.level(s, ops.searchNext(s, u, k).siblingUid) == ops.level(s, u)
        && ops.toRight(s, ops.searchNext(s, u, k).siblingUid) < ops.toRight(s, u)
  }

  /** The sibling a leaf reports is a leaf further right. */
  ghost predicate LeavesChainRight<S(!new)>(ops: NodeOps<S>)
  {
    forall s, u, l, r :: ops.isLeaf(s, u) && ops.leafSearchRange(s, u, l, r).siblingUid != 0 ==>
      && ops.isLeaf(s, ops.leafSearchRange(s, u, l, r).siblingUid)
      && ops.toRight(s, ops.leafSearchRange(s, u, l, r).siblingUid) < ops.toRight(s, u)
  }

  /** A node that passes an insertion on to its sibling passes it further right. */
  ghost predicate SplitsMoveRight<S(!new)>(ops: NodeOps<S>)
  {
    forall s, u, uid, key :: ops.insertAndSplit(s, u, uid, key).1.siblingUid != 0 ==>
      ops.toRight(ops.insertAndSplit(s, u, uid, key).0, ops.insertAndSplit(s, u, uid, key).1.siblingUid)
        < ops.toRight(s, u)
  }

  ghost predicate WellFormed<S(!new)>(ops: NodeOps<S>)
  {
    InnerNodesDescend(ops) && LeavesChainRight(ops) && SplitsMoveRight(ops)
  }

  /** The data manager hands out a new non-zero uid per insert, under which the inserted bytes
      read back, and leaves every other record as it was. */
  ghost predicate StoreWellFormed<S(!new)>(ops: NodeOps<S>)
  {
    && (forall s, d :: ops.insert(s, d).1 != 0 && ops.read(s, ops.insert(s, d).1).None?)
    && (forall s, d :: ops.read(ops.insert(s, d).0, ops.insert(s, d).1) == Some(d))
    && (forall s, d, u :: u != ops.insert(s, d).1 ==> ops.read(ops.insert(s, d).0, u) == ops.read(s, u))
  }

  /** `create`: insert an empty root, then a boot record holding the root's uid; the result is
      the new store and the boot record's uid. */
  function Create<S(!new)>(ops: NodeOps<S>, s: S): (r: (S, Long))
    ensures StoreWellFormed(ops) ==>
      && r.1 != 0 && r.1 != ops.insert(s, ops.newNilRootRaw).1
      && ops.read(r.0, r.1) == Some(Long2Bytes(ops.insert(s, ops.newNilRootRaw).1))
  {
    var (s1, rootUid) := ops.insert(s, ops.newNilRootRaw);
    ops.insert(s1, Long2Bytes(rootUid))
  }

  /** After `create`, the boot record reads back as the root's uid, and the empty root is
      stored under that uid. */
  lemma CreateRecordsRoot<S(!new)>(ops: NodeOps<S>, s: S)
    requires StoreWellFormed(ops)
    ensures var (s1, rootUid) := ops.insert(s, ops.newNilRootRaw);
            var (s2, bootUid) := Create(ops, s);
            && bootUid != rootUid
            && ops.read(s2, rootUid) == Some(ops.newNilRootRaw)
            && ops.read(s2, bootUid).Some? && |ops.read(s2, bootUid).value| == 8
            && ParseLong(ops.read(s2, bootUid).value) == rootUid
  {
    var (s1, rootUid) := ops.insert(s, ops.newNilRootRaw);
    var (s2, bootUid) := ops.insert(s1, Long2Bytes(rootUid));
    assert ops.read(s1, rootUid) == Some(ops.newNilRootRaw);
    assert ops.read(s1, bootUid).None?;
    LongRoundTrip(rootUid);
  }

  /** `searchNext`: the child the first node along the sibling chain names. */
  function SearchNextSpec<S(!new)>(ops: NodeOps<S>, s: S, u: Long, key: Long): (r: Long)
    requires WellFormed(ops) && !ops.isLeaf(s, u)
    ensures r != 0 && ops.level(s, r) < ops.level(s, u)
    decreases ops.toRight(s, u)
  {
    var res := ops.searchNext(s, u, key);
    if res.uid != 0 then res.uid else SearchNextSpec(ops, s, res.siblingUid, key)
  }

  /** `searchLeaf`: the leaf a descent from `u` towards `key` ends at. */
  function SearchLeafSpec<S(!new)>(ops: NodeOps<S>, s: S, u: Long, key: Long): (r: Long)
    requires WellFormed(ops)
    ensures ops.isLeaf(s, r) && ops.level(s, r) <= ops.level(s, u)
    decreases ops.level(s, u)
  {
    if ops.isLeaf(s, u) then u else SearchLeafSpec(ops, s, SearchNextSpec(ops, s, u, key), key)
  }

  /** The leaves a range search visits from `leaf`: each the sibling the previous one reported,
      up to the first that reports no sibling. */
  ghost function LeafChain<S(!new)>(ops: NodeOps<S>, s: S, leaf: Long, l: Long, r: Long): (c: seq<Long>)
    requires WellFormed(ops) && ops.isLeaf(s, leaf)
    ensures |c| >= 1 && c[0] == leaf
    decreases ops.toRight(s, leaf)
  {
    var sibling := ops.leafSearchRange(s, leaf, l, r).siblingUid;
    if sibling == 0 then [leaf] else [leaf] + LeafChain(ops, s, sibling, l, r)
  }

  /** `b` is the sibling the leaf `a` reports, further right. */
  ghost predicate SiblingOf<S(!new)>(ops: NodeOps<S>, s: S, l: Long, r: Long, a: Long, b: Long)
  {
    b != 0 && ops.leafSearchRange(s, a, l, r).siblingUid == b && ops.toRight(s, b) < ops.toRight(s, a)
  }

  /** The chain holds only leaves, each linked to the next by the sibling uid it reports and
      strictly further right, so no leaf is visited twice; its last leaf reports no sibling. */
  lemma {:induction false} LeafChainLinks<S(!new)>(ops: NodeOps<S>, s: S, leaf: Long, l: Long, r: Long)
    requires WellFormed(ops) && ops.isLeaf(s, leaf)
    ensures var c := LeafChain(ops, s, leaf, l, r);
      && (forall i :: 0 <= i < |c| ==> ops.isLeaf(s, c[i]))
      && (forall i :: 0 <= i < |c| - 1 ==> SiblingOf(ops, s, l, r, c[i], c[i + 1]))
      && ops.leafSearchRange(s, c[|c| - 1], l, r).siblingUid == 0
    decreases ops.toRight(s, leaf)
  {
    var c := LeafChain(ops, s, leaf, l, r);
    var sibling := ops.leafSearchRange(s, leaf, l, r).siblingUid;
    if sibling != 0 {
      LeafChainLinks(ops, s, sibling, l, r);
      var rest := LeafChain(ops, s, sibling, l, r);
      assert c == [leaf] + rest;
      forall i | 0 <= i < |c| - 1
        ensures SiblingOf(ops, s, l, r, c[i], c[i + 1])
      {
        if i > 0 {
          assert c[i] == rest[i - 1] && c[i + 1] == rest[i];
          assert SiblingOf(ops, s, l, r, rest[i - 1], rest[i]);
        } else {
          assert c[1] == rest[0] == sibling;
        }
      }
      forall i | 0 <= i < |c|
        ensures ops.isLeaf(s, c[i])
      {
        if i > 0 {
          assert c[i] == rest[i - 1];
        }
      }
      assert c[|c| - 1] == rest[|rest| - 1];
    }
  }

  /** The uids the leaves of `chain` report, in chain order. */
  ghost function Collected<S(!new)>(ops: NodeOps<S>, s: S, chain: seq<Long>, l: Long, r: Long): seq<Long>
  {
    if chain == [] then [] else ops.leafSearchRange(s, chain[0], l, r).uids + Collected(ops, s, chain[1..], l, r)
  }

  /** `searchRange` from `root`: what the leaves from `l`'s leaf rightwards report. */
  ghost function SearchRangeSpec<S(!new)>(ops: NodeOps<S>, s: S, root: Long, l: Long, r: Long): (res: seq<Long>)
    requires WellFormed(ops)
    ensures ops.leafSearchRange(s, SearchLeafSpec(ops, s, root, l), l, r).uids <= res
    ensures ops.leafSearchRange(s, SearchLeafSpec(ops, s, root, l), l, r).siblingUid == 0 ==>
      res == ops.leafSearchRange(s, SearchLeafSpec(ops, s, root, l), l, r).uids
  {
    var c := LeafChain(ops, s, SearchLeafSpec(ops, s, root, l), l, r);
    assert c[1..] == [] ==> Collected(ops, s, c[1..], l, r) == [];
    Collected(ops, s, c, l, r)
  }

  /** One leaf of the chain: after its uids are appended to `acc`, the rest of the chain
      accounts for the rest of `all`. */
  lemma CollectedStep<S(!new)>(ops: NodeOps<S>, s: S, leaf: Long, l: Long, r: Long, acc: seq<Long>, all: seq<Long>)
    requires WellFormed(ops) && ops.isLeaf(s, leaf)
    requires acc + Collected(ops, s, LeafChain(ops, s, leaf, l, r), l, r) == all
    ensures var res := ops.leafSearchRange(s, leaf, l, r);
            if res.siblingUid == 0 then acc + res.uids == all
            else acc + res.uids + Collected(ops, s, LeafChain(ops, s, res.siblingUid, l, r), l, r) == all
  {
    var res := ops.leafSearchRange(s, leaf, l, r);
    var c := LeafChain(ops, s, leaf, l, r);
    if res.siblingUid == 0 {
      assert c == [leaf];
      assert Collected(ops, s, c[1..], l, r) == [];
      assert Collected(ops, s, c, l, r) == res.uids;
    } else {
      var rest := LeafChain(ops, s, res.siblingUid, l, r);
      assert c[1..] == rest;
      assert Collected(ops, s, c, l, r) == res.uids + Collected(ops, s, rest, l, r);
      assert acc + res.uids + Collected(ops, s, rest, l, r) == acc + (res.uids + Collected(ops, s, rest, l, r));
    }
  }

  /** Some node's `insertAndSplit` reported `ir` as its split, passing nothing to a sibling. */
  ghost predicate ReportedByNode<S(!new)>(ops: NodeOps<S>, ir: InsertRes)
  {
    exists s, u, uid, key :: ops.insertAndSplit(s, u, uid, key).1 == InsertAndSplitRes(0, ir.newNode, ir.newKey)
  }

  /** `insertAndSplit`: the insertion moves right until a node takes it, and that node's split
      (if any) is the result, so the driver never makes up a split of its own. */
  function InsertAndSplitSpec<S(!new)>(ops: NodeOps<S>, s: S, u: Long, uid: Long, key: Long): (r: (S, InsertRes))
    requires WellFormed(ops)
    ensures ReportedByNode(ops, r.1)
    decreases ops.toRight(s, u)
  {
    var (s1, res) := ops.insertAndSplit(s, u, uid, key);
    assert res.siblingUid == 0 ==> ops.insertAndSplit(s, u, uid, key).1 == InsertAndSplitRes(0, res.newSon, res.newKey);
    if res.siblingUid != 0 then InsertAndSplitSpec(ops, s1, res.siblingUid, uid, key)
    else (s1, InsertRes(res.newSon, res.newKey))
  }

  /** `insert(nodeUid, uid, key)`: insert into the leaf below `u`; an internal node inserts the
      split-off node of its child into itself, and reports no split when the child reported
      none. */
  function InsertSpec<S(!new)>(ops: NodeOps<S>, s: S, u: Long, uid: Long, key: Long): (r: (S, InsertRes))
    requires WellFormed(ops)
    ensures r.1.newNode != 0 ==> ReportedByNode(ops, r.1)
    decreases ops.level(s, u)
  {
    if ops.isLeaf(s, u) then InsertAndSplitSpec(ops, s, u, uid, key)
    else
      var (s1, ir) := InsertSpec(ops, s, SearchNextSpec(ops, s, u, key), uid, key);
      if ir.newNode != 0 then InsertAndSplitSpec(ops, s1, u, ir.newNode, ir.newKey)
      else (s1, InsertRes(0, 0))
  }

  /** No node ever splits. */
  ghost predicate NeverSplits<S(!new)>(ops: NodeOps<S>)
  {
    forall s, u, uid, key :: ops.insertAndSplit(s, u, uid, key).1.newSon == 0
  }

  lemma {:induction false} NoSplitStaysPut<S(!new)>(ops: NodeOps<S>, s: S, u: Long, uid: Long, key: Long)
    requires WellFormed(ops) && NeverSplits(ops)
    ensures InsertAndSplitSpec(ops, s, u, uid, key).1.newNode == 0
    decreases ops.toRight(s, u)
  {
    var (s1, res) := ops.insertAndSplit(s, u, uid, key);
    if res.siblingUid != 0 {
      NoSplitStaysPut(ops, s1, res.siblingUid, uid, key);
    }
  }

  /** Without node splits an insertion never reaches the root: the root stays where it is. */
  lemma {:induction false} NoSplitKeepsRoot<S(!new)>(ops: NodeOps<S>, s: S, u: Long, uid: Long, key: Long)
    requires WellFormed(ops) && NeverSplits(ops)
    ensures InsertSpec(ops, s, u, uid, key).1.newNode == 0
    decreases ops.level(s, u)
  {
    if ops.isLeaf(s, u) {
      NoSplitStaysPut(ops, s, u, uid, key);
    } else {
      NoSplitKeepsRoot(ops, s, SearchNextSpec(ops, s, u, key), uid, key);
    }
  }

  /** At an internal node, `insert` reports a split only when the child on the descent split
      first. */
  lemma SplitPropagatesUp<S(!new)>(ops: NodeOps<S>, s: S, u: Long, uid: Long, key: Long)
    requires WellFormed(ops)
    ensures !ops.isLeaf(s, u) && InsertSpec(ops, s, u, uid, key).1.newNode != 0 ==>
      InsertSpec(ops, s, SearchNextSpec(ops, s, u, key), uid, key).1.newNode != 0
  {
  }

  class BPlusTree<S(!new)> {
    const ops: NodeOps<S>
    /** The data manager's records, the nodes among them. */
    var store: S
    const bootUid: Long
    const bootDataItem: DataItem.DataItemImpl

    /** The tree is well formed and the boot record has room for a uid. */
    ghost predicate Valid()
    {
      && WellFormed(ops)
      && bootDataItem.Valid()
      && bootDataItem.Data().end - bootDataItem.Data().start >= 8
    }

    /** `load`: a tree over the boot record read from `bootUid`. */
    constructor Load(ops: NodeOps<S>, store: S, bootUid: Long, bootDataItem: DataItem.DataItemImpl)
      requires WellFormed(ops) && bootDataItem.Valid()
      requires bootDataItem.Data().end - bootDataItem.Data().start >= 8
      ensures Valid()
      ensures this.ops == ops && this.store == store && this.bootUid == bootUid && this.bootDataItem == bootDataItem
    {
      this.ops := ops;
      this.store := store;
      this.bootUid := bootUid;
      this.bootDataItem := bootDataItem;
    }

    /** `rootUid`: the first eight data bytes of the boot record. */
    function RootUid(): (r: Long)
      requires Valid()
      reads bootDataItem.raw.raw
      ensures Long2Bytes(r) == bootDataItem.raw.raw[bootDataItem.Data().start..bootDataItem.Data().start + 8]
    {
      var sa := bootDataItem.Data();
      LongBytesRoundTrip(sa.raw[sa.start..sa.start + 8]);
      ParseLong(sa.raw[sa.start..sa.start + 8])
    }

    /** `updateRootUid`: store a new root over `left` and `right`, and point the boot record at
        it, bracketed by `before` and `after(SUPER_XID)`. */
    method UpdateRootUid(left: Long, right: Long, rightKey: Long)
      requires Valid()
      modifies this`store, bootDataItem, bootDataItem.pg, bootDataItem.oldRaw, bootDataItem.raw.raw
      ensures Valid()
      ensures (store, RootUid()) == ops.insert(old(store), ops.newRootRaw(left, right, rightKey))
      ensures bootDataItem.raw.raw[..]
        == Copied(old(bootDataItem.raw.raw[..]), bootDataItem.Data().start, Long2Bytes(RootUid()))
      ensures bootDataItem.logged == old(bootDataItem.logged) + [SUPER_XID]
      ensures bootDataItem.pg.dirty && bootDataItem.oldRaw[..] == old(bootDataItem.Snapshot())
    {
      var rootRaw := ops.newRootRaw(left, right, rightKey);
      var inserted := ops.insert(store, rootRaw);
      store := inserted.0;
      var newRootUid := inserted.1;
      bootDataItem.Before();
      var diRaw := bootDataItem.Data();
      var bytes := new Byte[8](i requires 0 <= i < 8 => Long2Bytes(newRootUid)[i]);
      assert bytes[..] == Long2Bytes(newRootUid);
      ArrayCopy(bytes, 0, diRaw.raw, diRaw.start, 8);
      bootDataItem.After(SUPER_XID);
      assert diRaw.raw[diRaw.start..diRaw.start + 8] == Long2Bytes(newRootUid);
      LongRoundTrip(newRootUid);
    }

    /** `searchNext`: follow sibling links until a node names a child. */
    method SearchNext(nodeUid: Long, key: Long) returns (r: Long)
      requires Valid() && !ops.isLeaf(store, nodeUid)
      ensures r == SearchNextSpec(ops, store, nodeUid, key)
    {
      var u := nodeUid;
      while true
        invariant !ops.isLeaf(store, u)
        invariant SearchNextSpec(ops, store, u, key) == SearchNextSpec(ops, store, nodeUid, key)
        decreases ops.toRight(store, u)
      {
        var res := ops.searchNext(store, u, key);
        if res.uid != 0 {
          return res.uid;
        }
        u := res.siblingUid;
      }
    }

    /** `searchLeaf`: descend from `nodeUid` to the leaf for `key`. */
    method SearchLeaf(nodeUid: Long, key: Long) returns (r: Long)
      requires Valid()
      ensures r == SearchLeafSpec(ops, store, nodeUid, key)
      decreases ops.level(store, nodeUid)
    {
      var isLeaf := ops.isLeaf(store, nodeUid);
      if isLeaf {
        return nodeUid;
      }
      var next := SearchNext(nodeUid, key);
      r := SearchLeaf(next, key);
    }

    /** `searchRange`: the uids the leaves report, from `leftKey`'s leaf along the sibling
        chain, in chain order. */
    method SearchRange(leftKey: Long, rightKey: Long) returns (uids: seq<Long>)
      requires Valid()
      ensures uids == SearchRangeSpec(ops, store, RootUid(), leftKey, rightKey)
    {
      var rootUid := RootUid();
      var leafUid := SearchLeaf(rootUid, leftKey);
      ghost var all := Collected(ops, store, LeafChain(ops, store, leafUid, leftKey, rightKey), leftKey, rightKey);
      uids := [];
      while true
        invariant ops.isLeaf(store, leafUid)
        invariant uids + Collected(ops, store, LeafChain(ops, store, leafUid, leftKey, rightKey), leftKey, rightKey) == all
        decreases ops.toRight(store, leafUid)
      {
        var res := ops.leafSearchRange(store, leafUid, leftKey, rightKey);
        CollectedStep(ops, store, leafUid, leftKey, rightKey, uids, all);
        uids := uids + res.uids;
        if res.siblingUid == 0 {
          break;
        }
        leafUid := res.siblingUid;
      }
    }

    /** `search`: the range search from `key` to `key`. */
    method Search(key: Long) returns (uids: seq<Long>)
      requires Valid()
      ensures uids == SearchRangeSpec(ops, store, RootUid(), key, key)
    {
      uids := SearchRange(key, key);
    }

    /** `insertAndSplit`: offer the insertion to `nodeUid`, then to its siblings, until one
        takes it. */
    method InsertAndSplit(nodeUid: Long, uid: Long, key: Long) returns (res: InsertRes)
      requires Valid()
      modifies this`store
      ensures (store, res) == InsertAndSplitSpec(ops, old(store), nodeUid, uid, key)
    {
      var u := nodeUid;
      while true
        invariant InsertAndSplitSpec(ops, store, u, uid, key) == InsertAndSplitSpec(ops, old(store), nodeUid, uid, key)
        decreases ops.toRight(store, u)
      {
        var iasr := ops.insertAndSplit(store, u, uid, key);
        store := iasr.0;
        if iasr.1.siblingUid != 0 {
          u := iasr.1.siblingUid;
        } else {
          return InsertRes(iasr.1.newSon, iasr.1.newKey);
        }
      }
    }

    /** `insert(nodeUid, uid, key)`: insert below `nodeUid`, absorbing the child's split. */
    method InsertNode(nodeUid: Long, uid: Long, key: Long) returns (res: InsertRes)
      requires Valid()
      modifies this`store
      ensures (store, res) == InsertSpec(ops, old(store), nodeUid, uid, key)
      decreases ops.level(store, nodeUid)
    {
      var isLeaf := ops.isLeaf(store, nodeUid);
      if isLeaf {
        res := InsertAndSplit(nodeUid, uid, key);
      } else {
        var next := SearchNext(nodeUid, key);
        var ir := InsertNode(next, uid, key);
        if ir.newNode != 0 {
          res := InsertAndSplit(nodeUid, ir.newNode, ir.newKey);
        } else {
          res := InsertRes(0, 0);
        }
      }
    }

    /** `insert(key, uid)`: insert from the root; a split of the root puts a new root above the
        old root and its new sibling, and only then is the boot record written. */
    method Insert(key: Long, uid: Long)
      requires Valid()
      modifies this`store, bootDataItem, bootDataItem.pg, bootDataItem.oldRaw, bootDataItem.raw.raw
      ensures Valid()
      ensures var (s1, res) := InsertSpec(ops, old(store), old(RootUid()), uid, key);
        if res.newNode == 0 then
          && store == s1 && RootUid() == old(RootUid())
          && unchanged(bootDataItem, bootDataItem.raw.raw, bootDataItem.pg, bootDataItem.oldRaw)
        else
          && (store, RootUid()) == ops.insert(s1, ops.newRootRaw(old(RootUid()), res.newNode, res.newKey))
          && bootDataItem.raw.raw[..]
               == Copied(old(bootDataItem.raw.raw[..]), bootDataItem.Data().start, Long2Bytes(RootUid()))
          && bootDataItem.logged == old(bootDataItem.logged) + [SUPER_XID]
          && bootDataItem.pg.dirty && bootDataItem.oldRaw[..] == old(bootDataItem.Snapshot())
    {
      var rootUid := RootUid();
      var res := InsertNode(rootUid, uid, key);
      if res.newNode != 0 {
        UpdateRootUid(rootUid, res.newNode, res.newKey);
      }
    }
  }
}

/**
 * A version-manager entry (`Entry.java`): the data bytes of a data item, laid out as
 * [XMIN: 8][XMAX: 8][data]. XMIN is the transaction that created the version, XMAX the one that
 * deleted it (0 while nobody has). The version manager and the read lock are not part of this
 * model.
 */
module Entry {
  import opened Bytes
  import opened Page
  import DataItem

  const OF_XMIN: nat := 0
  const OF_XMAX: nat := 8
  const OF_DATA: nat := 16

  /** `wrapEntryRaw`: a new version created by `xid`, not deleted. */
  function WrapEntryRaw(xid: int, data: seq<Byte>): (r: seq<Byte>)
    requires IsInt64(xid)
    ensures |r| == OF_DATA + |data|
  {
    Long2Bytes(xid) + Zeros(8) + data
  }

  /** The XMIN field, read as a `long`. */
  function XminOf(v: seq<Byte>): (x: int)
    requires |v| >= OF_DATA
    ensures IsInt64(x) && Long2Bytes(x) == v[OF_XMIN..OF_XMAX]
  {
    LongBytesRoundTrip(v[OF_XMIN..OF_XMAX]);
    ParseLong(v[OF_XMIN..OF_XMAX])
  }

  /** The XMAX field, read as a `long`. */
  function XmaxOf(v: seq<Byte>): (x: int)
    requires |v| >= OF_DATA
    ensures IsInt64(x) && Long2Bytes(x) == v[OF_XMAX..OF_DATA]
  {
    LongBytesRoundTrip(v[OF_XMAX..OF_DATA]);
    ParseLong(v[OF_XMAX..OF_DATA])
  }

  /** The bytes after the two ids. */
  function DataOf(v: seq<Byte>): (d: seq<Byte>)
    requires |v| >= OF_DATA
    ensures |d| == |v| - OF_DATA && forall i :: 0 <= i < |d| ==> d[i] == v[OF_DATA + i]
  {
    v[OF_DATA..]
  }

  /** A wrapped entry reads back as created by `xid`, not deleted, holding `data`. */
  lemma WrapThenRead(xid: int, data: seq<Byte>)
    requires IsInt64(xid)
    ensures XminOf(WrapEntryRaw(xid, data)) == xid
    ensures XmaxOf(WrapEntryRaw(xid, data)) == 0
    ensures DataOf(WrapEntryRaw(xid, data)) == data
  {
    var r := WrapEntryRaw(xid, data);
    assert r[OF_XMIN..OF_XMAX] == Long2Bytes(xid);
    assert r[OF_XMAX..OF_DATA] == Zeros(8);
    LongRoundTrip(xid);
    ZerosParseAsZero();
  }

  /** Writing XMAX changes XMAX only. */
  lemma SetXmaxReads(v: seq<Byte>, xid: int)
    requires |v| >= OF_DATA && IsInt64(xid)
    ensures XmaxOf(Copied(v, OF_XMAX, Long2Bytes(xid))) == xid
    ensures XminOf(Copied(v, OF_XMAX, Long2Bytes(xid))) == XminOf(v)
    ensures DataOf(Copied(v, OF_XMAX, Long2Bytes(xid))) == DataOf(v)
  {
    var r := Copied(v, OF_XMAX, Long2Bytes(xid));
    assert r[OF_XMIN..OF_XMAX] == v[OF_XMIN..OF_XMAX];
    assert DataOf(r) == DataOf(v);
    LongRoundTrip(xid);
  }

  class Entry {
    const uid: int
    const dataItem: DataItem.DataItemImpl

    constructor (uid: int, dataItem: DataItem.DataItemImpl)
      ensures this.uid == uid && this.dataItem == dataItem
    {
      this.uid := uid;
      this.dataItem := dataItem;
    }

    /** The item holds at least the two id fields. */
    predicate Valid()
    {
      dataItem.Valid() && dataItem.Data().end - dataItem.Data().start >= OF_DATA
    }

    /** The entry's bytes: the data view of its item. */
    function View(): (v: seq<Byte>)
      requires Valid()
      reads dataItem.raw.raw
      ensures |v| >= OF_DATA
    {
      var sa := dataItem.Data();
      sa.raw[sa.start..sa.end]
    }

    /** `getXmin`: the `long` whose encoding is the view's first eight bytes. */
    function GetXmin(): (x: int)
      requires Valid()
      reads dataItem.raw.raw
      ensures IsInt64(x) && Long2Bytes(x) == View()[OF_XMIN..OF_XMAX]
    {
      XminOf(View())
    }

    /** `getXmax`: the `long` whose encoding is the view's bytes [8, 16). */
    function GetXmax(): (x: int)
      requires Valid()
      reads dataItem.raw.raw
      ensures IsInt64(x) && Long2Bytes(x) == View()[OF_XMAX..OF_DATA]
    {
      XmaxOf(View())
    }

    /** `data`: a fresh copy of the bytes after the two ids. */
    method Data() returns (d: array<Byte>)
      requires Valid()
      ensures fresh(d) && d[..] == DataOf(View())
    {
      var sa := dataItem.Data();
      ghost var data := sa.raw[sa.start + OF_DATA..sa.end];
      assert data == DataOf(View());
      d := new Byte[sa.end - sa.start - OF_DATA];
      ghost var blank := d[..];
      ArrayCopy(sa.raw, sa.start + OF_DATA, d, 0, d.Length);
      CopiedWhole(blank, data);
    }

    /** `setXmax`: the write of XMAX, bracketed by `before` and `after(xid)`. */
    method SetXmax(xid: int)
      requires Valid() && IsInt64(xid)
      modifies dataItem, dataItem.pg, dataItem.oldRaw, dataItem.raw.raw
      ensures View() == Copied(old(View()), OF_XMAX, Long2Bytes(xid))
      ensures dataItem.raw.raw[..] == Copied(old(dataItem.raw.raw[..]), dataItem.Data().start + OF_XMAX, Long2Bytes(xid))
      ensures GetXmax() == xid && GetXmin() == old(GetXmin()) && DataOf(View()) == DataOf(old(View()))
      ensures dataItem.oldRaw[..] == old(dataItem.Snapshot()) && dataItem.pg.dirty
      ensures dataItem.logged == old(dataItem.logged) + [xid]
    {
      dataItem.Before();
      var sa := dataItem.Data();
      var x := new Byte[8](i requires 0 <= i < 8 => Long2Bytes(xid)[i]);
      assert x[..] == Long2Bytes(xid);
      ArrayCopy(x, 0, sa.raw, sa.start + OF_XMAX, 8);
      dataItem.After(xid);
      SetXmaxReads(old(View()), xid);
      assert View() == Copied(old(View()), OF_XMAX, Long2Bytes(xid));
    }
  }

  /** `newEntry`: null exactly when the data item is. */
  method NewEntry(dataItem: DataItem.DataItemImpl?, uid: int) returns (e: Entry?)
    ensures e == null <==> dataItem == null
    ensures e != null ==> fresh(e) && e.dataItem == dataItem && e.uid == uid
  {
    if dataItem == null {
      return null;
    }
    e := new Entry(uid, dataItem);
  }
}

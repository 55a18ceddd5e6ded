/**
 * A data item (`DataItemImpl.java`): a record laid out as [valid flag: 1][size: 2][data] inside
 * its page's buffer, seen through a `SubArray` view, with an undo buffer `oldRaw` of its own.
 * Edits follow the protocol `before` (snapshot into `oldRaw`, page marked dirty), the edit in
 * place, then `after` (log) or `unBefore` (restore the snapshot). The read/write lock, the
 * cache release and `DataManagerImpl.logDataItem` are not part of this model; the log hook is the
 * sequence of transaction ids it was called with.
 */
module DataItem {
  import opened Bytes
  import opened Page

  const OF_VALID: nat := 0
  const OF_SIZE: nat := 1
  const OF_DATA: nat := 3

  /** `SubArray`: a range [start, end) of a shared buffer. */
  datatype SubArray = SubArray(raw: array<Byte>, start: nat, end: nat)

  /** Rolling back an edit that stayed inside [start, start + |snapshot|) gives the buffer back. */
  lemma UnBeforeUndoesEdits(buf: seq<Byte>, edited: seq<Byte>, start: nat, len: nat)
    requires start + len <= |buf| == |edited|
    requires forall i :: 0 <= i < |buf| && !(start <= i < start + len) ==> edited[i] == buf[i]
    ensures Copied(edited, start, buf[start..start + len]) == buf
  {
    var r := Copied(edited, start, buf[start..start + len]);
    forall i | 0 <= i < |buf|
      ensures r[i] == buf[i]
    {
      if start <= i < start + len {
        assert r[i] == r[start..start + len][i - start];
      }
    }
  }

  class DataItemImpl {
    const raw: SubArray
    const oldRaw: array<Byte>
    const pg: Page
    const uid: int
    /** The transaction ids handed to the log hook by `after`. */
    var logged: seq<int>

    /** The view lies in its page's buffer, which has room for the snapshot. */
    predicate Valid()
    {
      && raw.start + OF_DATA <= raw.end <= raw.raw.Length
      && raw.start + oldRaw.Length <= raw.raw.Length
      && raw.raw == pg.data && oldRaw != raw.raw
    }

    constructor (raw: SubArray, oldRaw: array<Byte>, pg: Page, uid: int)
      ensures this.raw == raw && this.oldRaw == oldRaw && this.pg == pg && this.uid == uid
      ensures logged == []
    {
      this.raw := raw;
      this.oldRaw := oldRaw;
      this.pg := pg;
      this.uid := uid;
      logged := [];
    }

    /** `isValid`: the flag byte 0 marks a live item (the layout comment in the source says the
        opposite; the code decides). The flag lies before the `data` view, so no write
        through that view changes it. */
    predicate IsValid(): (b: bool)
      requires Valid()
      reads raw.raw
      ensures b <==> raw.raw[raw.start + OF_VALID] == 0
    {
      raw.raw[raw.start + OF_VALID] == 0
    }

    /** `data`: a view of the data bytes on the same buffer, not a copy. */
    function Data(): (r: SubArray)
      requires Valid()
      ensures r.raw == raw.raw && r.start <= r.end <= raw.raw.Length
      ensures r.raw[r.start..r.end] == raw.raw[raw.start + OF_DATA..raw.end]
    {
      SubArray(raw.raw, raw.start + OF_DATA, raw.end)
    }

    /** The bytes `before` saves. */
    function Snapshot(): (r: seq<Byte>)
      requires Valid()
      reads raw.raw
    {
      raw.raw[raw.start..raw.start + oldRaw.Length]
    }

    /** `before`: mark the page dirty and snapshot the item into `oldRaw`; no buffer byte
        changes. */
    method Before()
      requires Valid()
      modifies pg, oldRaw
      ensures pg.dirty && oldRaw[..] == Snapshot() && Snapshot() == old(Snapshot())
      ensures unchanged(raw.raw)
    {
      pg.SetDirty(true);
      ArrayCopy(raw.raw, raw.start, oldRaw, 0, oldRaw.Length);
    }

    /** `unBefore`: copy the snapshot back over the item. */
    method UnBefore()
      requires Valid()
      modifies raw.raw
      ensures raw.raw[..] == Copied(old(raw.raw[..]), raw.start, oldRaw[..])
      ensures Snapshot() == oldRaw[..]
    {
      ArrayCopy(oldRaw, 0, raw.raw, raw.start, oldRaw.Length);
    }

    /** `after`: hand the edit to the log under `xid`; the buffer is left alone. */
    method After(xid: int)
      modifies this`logged
      ensures logged == old(logged) + [xid]
    {
      logged := logged + [xid];
    }
  }
}

/**
 * The transaction status log (`TransactionManagerImpl.java`).
 *
 * The file is an 8-byte header holding the counter of allocated transaction ids, followed by one
 * status byte per id: id x lives at offset 8 + (x - 1). Status bytes are 0 (active),
 * 1 (committed) and 2 (aborted). Id 0 is the super transaction, always committed. The file is a
 * byte sequence; every write is forced at once in the source, so the model has no write buffer.
 */
module TransactionManager {
  import opened Bytes
  import opened Wrappers

  const HEADER_LENGTH: int := 8
  const ACTIVE: Byte := 0
  const COMMITTED: Byte := 1
  const ABORTED: Byte := 2
  const SUPER_XID: int := 0

  /** `getXidPosition`. */
  function XidPosition(xid: int): (r: int)
    ensures xid >= 1 <==> r >= HEADER_LENGTH
  {
    HEADER_LENGTH + (xid - 1)
  }

  /** `checkXIDCounter`: the counter of a well-formed file, or None where the source panics. */
  function CheckXidCounter(file: seq<Byte>): (r: Option<int>)
    ensures r.Some? <==> |file| >= HEADER_LENGTH && |file| == XidPosition(ParseLong(file[..8]) + 1)
    ensures r.Some? ==> r.value >= 0 && r.value == |file| - HEADER_LENGTH
    ensures r.Some? ==> file[..8] == Long2Bytes(r.value)
  {
    if |file| < HEADER_LENGTH then None
    else
      var counter := ParseLong(file[..8]);
      LongBytesRoundTrip(file[..8]);
      if XidPosition(counter + 1) != |file| then None else Some(counter)
  }

  /** Writing `b` over the byte at `offset` (`updateXID` on an offset inside the file, or just at
      its end, where the write extends the file by one byte). */
  function WriteByte(file: seq<Byte>, offset: nat, b: Byte): (r: seq<Byte>)
    requires offset <= |file|
    ensures |r| == if offset == |file| then |file| + 1 else |file|
    ensures r[offset] == b
    ensures forall i :: 0 <= i < |file| && i != offset ==> r[i] == file[i]
  {
    if offset == |file| then file + [b] else file[offset := b]
  }

  /** `begin` on the file: the new id's status byte (appended), then the header rewritten. */
  function BeginFile(file: seq<Byte>, counter: int): (r: seq<Byte>)
    requires CheckXidCounter(file) == Some(counter)
    requires IsInt64(counter + 1)
    ensures |r| == |file| + 1 && r[..8] == Long2Bytes(counter + 1)
    ensures r[8..|file|] == file[8..] && r[|file|] == ACTIVE
  {
    var f := WriteByte(file, XidPosition(counter + 1), ACTIVE);
    Long2Bytes(counter + 1) + f[8..]
  }

  /** The status byte `checkXID` compares: a read past the end of the file leaves Java's
      one-byte buffer at 0, which reads as active. */
  function StatusByte(file: seq<Byte>, xid: int): (r: Byte)
    requires xid >= 1
    ensures XidPosition(xid) < |file| ==> r == file[XidPosition(xid)]
    ensures XidPosition(xid) >= |file| ==> r == ACTIVE
  {
    if XidPosition(xid) < |file| then file[XidPosition(xid)] else 0
  }

  /** `checkXID(xid, ACTIVE)` on the file, with `isActive`'s short circuit for the super
      transaction. */
  function FileIsActive(file: seq<Byte>, xid: int): (active: bool)
    requires xid >= 0
    ensures xid >= 1 && XidPosition(xid) >= |file| ==> active
    ensures xid >= 1 && XidPosition(xid) < |file| ==> (active <==> file[XidPosition(xid)] == ACTIVE)
    ensures xid == SUPER_XID ==> !active
  {
    xid != SUPER_XID && StatusByte(file, xid) == ACTIVE
  }

  function FileIsCommitted(file: seq<Byte>, xid: int): (committed: bool)
    requires xid >= 0
    ensures xid == SUPER_XID ==> committed
    ensures xid >= 1 ==> (committed <==> XidPosition(xid) < |file| && file[XidPosition(xid)] == COMMITTED)
  {
    xid == SUPER_XID || StatusByte(file, xid) == COMMITTED
  }

  function FileIsAborted(file: seq<Byte>, xid: int): (aborted: bool)
    requires xid >= 0
    ensures xid == SUPER_XID ==> !aborted
    ensures xid >= 1 ==> (aborted <==> XidPosition(xid) < |file| && file[XidPosition(xid)] == ABORTED)
  {
    xid != SUPER_XID && StatusByte(file, xid) == ABORTED
  }

  /** The header check accepts exactly the files of the form header(counter) ++ counter status bytes. */
  lemma CheckAcceptsExactly(counter: int, statuses: seq<Byte>)
    requires 0 <= counter < TWO_63 && |statuses| == counter
    ensures CheckXidCounter(Long2Bytes(counter) + statuses) == Some(counter)
  {
    var f := Long2Bytes(counter) + statuses;
    assert f[..8] == Long2Bytes(counter);
    LongRoundTrip(counter);
  }

  /** `begin` keeps the length invariant, hands out counter + 1, marks it active and changes no
      other transaction's status. */
  lemma BeginKeepsFileValid(file: seq<Byte>, counter: int)
    requires CheckXidCounter(file) == Some(counter) && IsInt64(counter + 1)
    ensures CheckXidCounter(BeginFile(file, counter)) == Some(counter + 1)
    ensures FileIsActive(BeginFile(file, counter), counter + 1)
    ensures forall x :: 1 <= x <= counter ==> StatusByte(BeginFile(file, counter), x) == StatusByte(file, x)
  {
    var r := BeginFile(file, counter);
    var f := WriteByte(file, XidPosition(counter + 1), ACTIVE);
    assert r[..8] == Long2Bytes(counter + 1);
    LongRoundTrip(counter + 1);
    forall x | 1 <= x <= counter
      ensures StatusByte(r, x) == StatusByte(file, x)
    {
      assert r[XidPosition(x)] == f[XidPosition(x)];
    }
  }

  /** Two successive `begin`s hand out strictly increasing ids. */
  lemma BeginIdsIncrease(file: seq<Byte>, counter: int)
    requires CheckXidCounter(file) == Some(counter) && IsInt64(counter + 2)
    ensures CheckXidCounter(BeginFile(file, counter)) == Some(counter + 1)
    ensures CheckXidCounter(BeginFile(BeginFile(file, counter), counter + 1)) == Some(counter + 2)
  {
    BeginKeepsFileValid(file, counter);
    BeginKeepsFileValid(BeginFile(file, counter), counter + 1);
  }

  /** For the super transaction the answer never depends on the file. */
  lemma SuperXidIsCommitted(file: seq<Byte>)
    ensures FileIsCommitted(file, SUPER_XID) && !FileIsActive(file, SUPER_XID) && !FileIsAborted(file, SUPER_XID)
  {
  }

  /** At most one of the three queries holds for any id. */
  lemma StatusesExclusive(file: seq<Byte>, xid: int)
    requires xid >= 0
    ensures !(FileIsActive(file, xid) && FileIsCommitted(file, xid))
    ensures !(FileIsActive(file, xid) && FileIsAborted(file, xid))
    ensures !(FileIsCommitted(file, xid) && FileIsAborted(file, xid))
  {
  }

  /** An id the file has not allocated yet reads as active. */
  lemma UnallocatedReadsActive(file: seq<Byte>, counter: int, xid: int)
    requires CheckXidCounter(file) == Some(counter) && xid > counter
    ensures FileIsActive(file, xid)
  {
  }

  /** Of two overwrites of the same id's status, the last one decides. */
  lemma LastWriteWins(file: seq<Byte>, xid: int, s1: Byte, s2: Byte)
    requires 1 <= xid && XidPosition(xid) < |file|
    ensures WriteByte(WriteByte(file, XidPosition(xid), s1), XidPosition(xid), s2)
            == WriteByte(file, XidPosition(xid), s2)
  {
  }

  class TransactionManagerImpl {
    var file: seq<Byte>
    var xidCounter: int

    ghost predicate Valid()
      reads this
    {
      CheckXidCounter(file) == Some(xidCounter)
    }

    /** The constructor runs `checkXIDCounter`; a file it rejects makes the source panic, so here
        it is a precondition. */
    constructor (f: seq<Byte>)
      requires CheckXidCounter(f).Some?
      ensures Valid() && file == f && xidCounter == CheckXidCounter(f).value
    {
      file := f;
      xidCounter := CheckXidCounter(f).value;
    }

    /** `updateXID`. */
    method UpdateXid(xid: int, status: Byte)
      requires Valid() && 1 <= xid <= xidCounter
      modifies this`file
      ensures Valid()
      ensures file == WriteByte(old(file), XidPosition(xid), status)
      ensures |file| == |old(file)| && file[..8] == old(file[..8])
    {
      file := file[XidPosition(xid) := status];
    }

    /** `incrXIDCounter`. */
    method IncrXidCounter()
      requires IsInt64(xidCounter + 1) && |file| >= 8
      modifies this
      ensures xidCounter == old(xidCounter) + 1
      ensures file == Long2Bytes(xidCounter) + old(file)[8..]
    {
      xidCounter := xidCounter + 1;
      file := Long2Bytes(xidCounter) + file[8..];
    }

    /** `begin`. */
    method Begin() returns (xid: int)
      requires Valid() && IsInt64(xidCounter + 1)
      modifies this
      ensures Valid()
      ensures xid == old(xidCounter) + 1 == xidCounter
      ensures file == BeginFile(old(file), old(xidCounter))
      ensures FileIsActive(file, xid)
    {
      xid := xidCounter + 1;
      // the status byte of the new id lands exactly at the end of the file
      file := WriteByte(file, XidPosition(xid), ACTIVE);
      IncrXidCounter();
      BeginKeepsFileValid(old(file), old(xidCounter));
    }

    method Commit(xid: int)
      requires Valid() && 1 <= xid <= xidCounter
      modifies this`file
      ensures Valid()
      ensures file == WriteByte(old(file), XidPosition(xid), COMMITTED)
      ensures IsCommitted(xid) && !IsActive(xid) && !IsAborted(xid)
    {
      UpdateXid(xid, COMMITTED);
    }

    method Abort(xid: int)
      requires Valid() && 1 <= xid <= xidCounter
      modifies this`file
      ensures Valid()
      ensures file == WriteByte(old(file), XidPosition(xid), ABORTED)
      ensures IsAborted(xid) && !IsActive(xid) && !IsCommitted(xid)
    {
      UpdateXid(xid, ABORTED);
    }

    predicate IsActive(xid: int): (b: bool)
      requires xid >= 0
      reads this
      ensures b <==> xid != SUPER_XID && StatusByte(file, xid) == ACTIVE
      ensures b ==> !FileIsCommitted(file, xid) && !FileIsAborted(file, xid)
    {
      FileIsActive(file, xid)
    }

    predicate IsCommitted(xid: int): (b: bool)
      requires xid >= 0
      reads this
      ensures b <==> xid == SUPER_XID || StatusByte(file, xid) == COMMITTED
      ensures b ==> !FileIsActive(file, xid) && !FileIsAborted(file, xid)
    {
      FileIsCommitted(file, xid)
    }

    predicate IsAborted(xid: int): (b: bool)
      requires xid >= 0
      reads this
      ensures b <==> xid != SUPER_XID && StatusByte(file, xid) == ABORTED
      ensures b ==> !FileIsActive(file, xid) && !FileIsCommitted(file, xid)
    {
      FileIsAborted(file, xid)
    }
  }
}

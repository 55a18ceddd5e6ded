/**
 * MVCC visibility rules of the version manager (`Visibility.java`).
 *
 * An entry carries XMIN (the transaction that created it) and XMAX (the transaction that deleted
 * it, 0 while it is live). Whether a transaction id is committed is asked of the transaction
 * manager, here an oracle `committed`. Isolation level 0 is read-committed, every other level is
 * repeatable-read. The `Transaction` class is not part of this model: a transaction is its id,
 * its level and the set of ids that were active when it began (`isInSnapshot` is membership).
 */
module Visibility {

  datatype Transaction = Transaction(xid: int, level: int, snapshot: set<int>)

  /**
   * Reference definition (not the code's shape): t regards x as committed when x has committed
   * and, under repeatable-read, x also began before t and was not active when t began.
   */
  predicate SeesCommitted(committed: int -> bool, t: Transaction, x: int)
  {
    committed(x) && (t.level == 0 || (x < t.xid && x !in t.snapshot))
  }

  /** Reference definition: visible iff t's own live insert, or an insert t sees committed whose
      deletion (if any) is neither t's own nor one t sees committed. */
  predicate VisibleByDesign(committed: int -> bool, t: Transaction, xmin: int, xmax: int)
  {
    (xmin == t.xid && xmax == 0)
    || (SeesCommitted(committed, t, xmin)
        && (xmax == 0 || (xmax != t.xid && !SeesCommitted(committed, t, xmax))))
  }

  /** `isVersionSkip`: deleting this entry would overwrite a deletion t cannot see. */
  predicate IsVersionSkip(committed: int -> bool, t: Transaction, xmax: int)
    ensures t.level == 0 ==> !IsVersionSkip(committed, t, xmax)
    ensures xmax != t.xid ==>
      (IsVersionSkip(committed, t, xmax) <==>
         (t.level != 0 && committed(xmax) && !SeesCommitted(committed, t, xmax)))
    ensures !committed(xmax) ==> !IsVersionSkip(committed, t, xmax)
  {
    if t.level == 0 then false
    else committed(xmax) && (xmax > t.xid || xmax in t.snapshot)
  }

  /** `readCommitted`. */
  predicate ReadCommitted(committed: int -> bool, t: Transaction, xmin: int, xmax: int)
    ensures xmin == t.xid && xmax == 0 ==> ReadCommitted(committed, t, xmin, xmax)
    ensures xmax == t.xid && xmax != 0 ==> !ReadCommitted(committed, t, xmin, xmax)
    ensures xmin != t.xid && !committed(xmin) ==> !ReadCommitted(committed, t, xmin, xmax)
    ensures committed(xmin) && xmax == 0 ==> ReadCommitted(committed, t, xmin, xmax)
    ensures xmax != 0 && xmax != t.xid && committed(xmax) ==> !ReadCommitted(committed, t, xmin, xmax)
    ensures committed(xmin) && xmax != t.xid && !committed(xmax) ==> ReadCommitted(committed, t, xmin, xmax)
  {
    if xmin == t.xid && xmax == 0 then true
    else if committed(xmin) then
      if xmax == 0 then true
      else xmax != t.xid && !committed(xmax)
    else false
  }

  /** `repeatableRead`. */
  predicate RepeatableRead(committed: int -> bool, t: Transaction, xmin: int, xmax: int)
    ensures xmin == t.xid && xmax == 0 ==> RepeatableRead(committed, t, xmin, xmax)
    ensures xmax == t.xid && xmax != 0 ==> !RepeatableRead(committed, t, xmin, xmax)
    ensures xmin != t.xid && !committed(xmin) ==> !RepeatableRead(committed, t, xmin, xmax)
    // a creator that began after t, or was active when t began, is never seen
    ensures xmin != t.xid && (xmin > t.xid || xmin in t.snapshot) ==> !RepeatableRead(committed, t, xmin, xmax)
    // a seen creator and a deleter t also sees: hidden
    ensures xmin != t.xid && committed(xmin) && xmin < t.xid && xmin !in t.snapshot
            && xmax != 0 && committed(xmax) && xmax < t.xid && xmax !in t.snapshot
            ==> !RepeatableRead(committed, t, xmin, xmax)
    // a seen creator and a deleter t cannot see (uncommitted, later, or in the snapshot): visible
    ensures committed(xmin) && xmin < t.xid && xmin !in t.snapshot && xmax != t.xid
            && (!committed(xmax) || xmax > t.xid || xmax in t.snapshot)
            ==> RepeatableRead(committed, t, xmin, xmax)
  {
    if xmin == t.xid && xmax == 0 then true
    else if committed(xmin) && xmin < t.xid && xmin !in t.snapshot then
      if xmax == 0 then true
      else xmax != t.xid && (!committed(xmax) || xmax > t.xid || xmax in t.snapshot)
    else false
  }

  /** `isVisible`: dispatch on the isolation level. */
  predicate IsVisible(committed: int -> bool, t: Transaction, xmin: int, xmax: int)
    ensures xmin == t.xid && xmax == 0 ==> IsVisible(committed, t, xmin, xmax)
    ensures xmax == t.xid && xmax != 0 ==> !IsVisible(committed, t, xmin, xmax)
    ensures xmin != t.xid && !committed(xmin) ==> !IsVisible(committed, t, xmin, xmax)
  {
    if t.level == 0 then ReadCommitted(committed, t, xmin, xmax)
    else RepeatableRead(committed, t, xmin, xmax)
  }

  /** Both levels agree with the reference definition, in both directions. */
  lemma VisibilityMatchesDesign(committed: int -> bool, t: Transaction, xmin: int, xmax: int)
    ensures IsVisible(committed, t, xmin, xmax) <==> VisibleByDesign(committed, t, xmin, xmax)
  {
  }

  /** An entry inserted and then deleted by the same transaction t is invisible to t (the code
      hides it, since XMAX is t), and invisible to every other transaction while t is uncommitted. */
  lemma SelfDeletedEntryIsHidden(committed: int -> bool, t: Transaction, u: Transaction)
    requires t.xid != 0 && !committed(t.xid)
    ensures !IsVisible(committed, t, t.xid, t.xid)
    ensures u.xid != t.xid ==> !IsVisible(committed, u, t.xid, t.xid)
  {
  }

  /** Repeatable-read: what a transaction that was active (or later) when t began did stays
      invisible to t even once it has committed, whether it inserted or deleted. */
  lemma RepeatableReadIgnoresConcurrentCommits(committed: int -> bool, t: Transaction, other: int, xmin: int)
    requires t.level != 0 && other != t.xid && (other > t.xid || other in t.snapshot)
    requires committed(other)
    requires xmin != t.xid && committed(xmin) && xmin < t.xid && xmin !in t.snapshot
    ensures !IsVisible(committed, t, other, 0)
    ensures IsVisible(committed, t, xmin, other)
    ensures IsVersionSkip(committed, t, other)
  {
  }
}

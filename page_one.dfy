/**
 * Page one and its clean-shutdown token (`PageOne.java`). Every open writes a fresh random token
 * at bytes [100, 108); a clean close copies it to [108, 116); at the next open the two ranges
 * match only if the previous session closed cleanly. `RandomUtil` and `PageCache.PAGE_SIZE` are
 * not part of this model: the random bytes and the page size are parameters.
 */
module PageOne {
  import opened Bytes
  import opened Page

  const OF_VC: nat := 100
  const LEN_VC: nat := 8

  /** `Arrays.copyOfRange(raw, from, to)`: bytes past the end of `raw` read as zero. */
  function CopyOfRange(raw: seq<Byte>, from: nat, to: nat): (r: seq<Byte>)
    requires from <= |raw| && from <= to
    ensures |r| == to - from
    ensures to <= |raw| ==> r == raw[from..to]
  {
    seq(to - from, i requires 0 <= i < to - from => if from + i < |raw| then raw[from + i] else 0)
  }

  /** `checkVc(byte[])`; `copyOfRange` throws unless both ranges start inside the buffer. */
  function CheckVcBytes(raw: seq<Byte>): (b: bool)
    requires |raw| >= OF_VC + LEN_VC
    ensures |raw| >= OF_VC + 2 * LEN_VC ==> (b <==> raw[OF_VC..OF_VC + LEN_VC] == raw[OF_VC + LEN_VC..OF_VC + 2 * LEN_VC])
  {
    CopyOfRange(raw, OF_VC, OF_VC + LEN_VC) == CopyOfRange(raw, OF_VC + LEN_VC, OF_VC + 2 * LEN_VC)
  }

  /** After a close copies the token, the check passes. */
  lemma CloseThenCheck(raw: seq<Byte>)
    requires |raw| >= OF_VC + 2 * LEN_VC
    ensures CheckVcBytes(Copied(raw, OF_VC + LEN_VC, raw[OF_VC..OF_VC + LEN_VC]))
  {
    var c := Copied(raw, OF_VC + LEN_VC, raw[OF_VC..OF_VC + LEN_VC]);
    assert c[OF_VC..OF_VC + LEN_VC] == raw[OF_VC..OF_VC + LEN_VC];
  }

  /** After an open writes a token, the check passes exactly when the closed copy already
      equals it: a fresh token tells a crashed session from a clean one. */
  lemma OpenThenCheck(raw: seq<Byte>, token: seq<Byte>)
    requires |raw| >= OF_VC + 2 * LEN_VC && |token| == LEN_VC
    ensures CheckVcBytes(Copied(raw, OF_VC, token)) <==> token == raw[OF_VC + LEN_VC..OF_VC + 2 * LEN_VC]
  {
    var c := Copied(raw, OF_VC, token);
    assert c[OF_VC + LEN_VC..OF_VC + 2 * LEN_VC] == raw[OF_VC + LEN_VC..OF_VC + 2 * LEN_VC];
  }

  /** `InitRaw`: a zeroed page holding a token. */
  method InitRaw(pageSize: nat, token: seq<Byte>) returns (raw: array<Byte>)
    requires pageSize >= OF_VC + LEN_VC && |token| == LEN_VC
    ensures fresh(raw)
    ensures raw[..] == Copied(Zeros(pageSize), OF_VC, token)
  {
    raw := new Byte[pageSize](_ => 0);
    assert raw[..] == Zeros(pageSize);
    SetVcOpenRaw(raw, token);
  }

  /** A zeroed page with a token is zero outside the token. */
  lemma InitRawIsZeroElsewhere(pageSize: nat, token: seq<Byte>)
    requires pageSize >= OF_VC + LEN_VC && |token| == LEN_VC
    ensures var r := Copied(Zeros(pageSize), OF_VC, token);
      |r| == pageSize && r[OF_VC..OF_VC + LEN_VC] == token
      && forall i :: 0 <= i < pageSize && !(OF_VC <= i < OF_VC + LEN_VC) ==> r[i] == 0
  {
  }

  method SetVcOpenRaw(raw: array<Byte>, token: seq<Byte>)
    requires raw.Length >= OF_VC + LEN_VC && |token| == LEN_VC
    modifies raw
    ensures raw[..] == Copied(old(raw[..]), OF_VC, token)
  {
    var t := new Byte[LEN_VC](i requires 0 <= i < LEN_VC => token[i]);
    assert t[..] == token;
    ArrayCopy(t, 0, raw, OF_VC, LEN_VC);
  }

  method SetVcCloseRaw(raw: array<Byte>)
    requires raw.Length >= OF_VC + 2 * LEN_VC
    modifies raw
    ensures raw[..] == Copied(old(raw[..]), OF_VC + LEN_VC, old(raw[OF_VC..OF_VC + LEN_VC]))
  {
    ArrayCopy(raw, OF_VC, raw, OF_VC + LEN_VC, LEN_VC);
  }

  /** `setVcOpen(Page)`. */
  method SetVcOpen(pg: Page, token: seq<Byte>)
    requires pg.data.Length >= OF_VC + LEN_VC && |token| == LEN_VC
    modifies pg, pg.data
    ensures pg.dirty
    ensures pg.data[..] == Copied(old(pg.data[..]), OF_VC, token)
  {
    pg.SetDirty(true);
    SetVcOpenRaw(pg.data, token);
  }

  /** `setVcClose(Page)`. */
  method SetVcClose(pg: Page)
    requires pg.data.Length >= OF_VC + 2 * LEN_VC
    modifies pg, pg.data
    ensures pg.dirty
    ensures pg.data[..] == Copied(old(pg.data[..]), OF_VC + LEN_VC, old(pg.data[OF_VC..OF_VC + LEN_VC]))
    ensures CheckVc(pg)
  {
    pg.SetDirty(true);
    SetVcCloseRaw(pg.data);
    CloseThenCheck(old(pg.data[..]));
  }

  /** `checkVc(Page)`. */
  predicate CheckVc(pg: Page): (b: bool)
    requires pg.data.Length >= OF_VC + LEN_VC
    reads pg.data
    ensures pg.data.Length >= OF_VC + 2 * LEN_VC ==>
      (b <==> pg.data[OF_VC..OF_VC + LEN_VC] == pg.data[OF_VC + LEN_VC..OF_VC + 2 * LEN_VC])
  {
    CheckVcBytes(pg.data[..])
  }
}

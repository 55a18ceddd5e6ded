/**
 * The write-ahead log file (`LoggerImpl.java`).
 *
 * File layout: a 4-byte header holding the file checksum, then records
 * `[size: 4][checksum: 4][data: size]`, possibly followed by a bad tail left by a crash.
 * A record's checksum is the rolling hash of its data; the file checksum is the rolling hash of
 * the WHOLE records (size and checksum fields included), in order. The rolling hash is
 * `x := x * 13331 + b` over the bytes read as signed Java bytes, in 32-bit wrapping arithmetic.
 */
module Logger {
  import opened Bytes
  import opened Wrappers

  const SEED: int := 13331
  const OF_SIZE: int := 0
  const OF_CHECKSUM: int := OF_SIZE + 4
  const OF_DATA: int := OF_CHECKSUM + 4

  // ---------------------------------------------------------------------------------------------
  // Checksums and record framing

  /** One step of `calChecksum`. */
  function Step(x: int, b: Byte): (r: int)
    requires IsInt32(x)
    ensures IsInt32(r)
  {
    Wrap32(x * SEED + Signed(b))
  }

  /** `calChecksum`: a left fold of `Step`. */
  function CalChecksum(x: int, s: seq<Byte>): (r: int)
    requires IsInt32(x)
    ensures IsInt32(r)
    decreases |s|
  {
    if s == [] then x else CalChecksum(Step(x, s[0]), s[1..])
  }

  /** Folding a concatenation is folding the second part after the first. */
  lemma {:induction false} ChecksumConcat(x: int, a: seq<Byte>, b: seq<Byte>)
    requires IsInt32(x)
    ensures CalChecksum(x, a + b) == CalChecksum(CalChecksum(x, a), b)
    decreases |a|
  {
    if a != [] {
      assert (a + b)[0] == a[0] && (a + b)[1..] == a[1..] + b;
      ChecksumConcat(Step(x, a[0]), a[1..], b);
    } else {
      assert a + b == b;
    }
  }

  /** `wrapLog`: size, checksum of the data, data. */
  function WrapLog(data: seq<Byte>): (r: seq<Byte>)
    requires |data| < TWO_31
    ensures |r| == OF_DATA + |data| && r[OF_DATA..] == data
  {
    Int2Bytes(|data|) + Int2Bytes(CalChecksum(0, data)) + data
  }

  lemma HeadFields(a: seq<Byte>, b: seq<Byte>, d: seq<Byte>)
    requires |a| == 4 && |b| == 4
    ensures (a + b + d)[OF_SIZE..OF_CHECKSUM] == a && (a + b + d)[OF_CHECKSUM..OF_DATA] == b
  {
  }

  /** The fields of a framed record read back as the data length and the data checksum. */
  lemma WrapLogFields(data: seq<Byte>)
    requires |data| < TWO_31
    ensures ParseInt(WrapLog(data)[OF_SIZE..OF_CHECKSUM]) == |data|
    ensures ParseInt(WrapLog(data)[OF_CHECKSUM..OF_DATA]) == CalChecksum(0, data)
  {
    var a, b := Int2Bytes(|data|), Int2Bytes(CalChecksum(0, data));
    HeadFields(a, b, data);
    IntRoundTrip(|data|);
    IntRoundTrip(CalChecksum(0, data));
  }

  /** A sequence of payloads each small enough to be framed. */
  predicate Framable(ds: seq<seq<Byte>>)
  {
    forall i :: 0 <= i < |ds| ==> |ds[i]| < TWO_31
  }

  /** The framed records of `ds`, one per payload. */
  function Wraps(ds: seq<seq<Byte>>): (r: seq<seq<Byte>>)
    requires Framable(ds)
    ensures |r| == |ds| && forall i :: 0 <= i < |ds| ==> r[i] == WrapLog(ds[i])
  {
    if ds == [] then [] else [WrapLog(ds[0])] + Wraps(ds[1..])
  }

  /** The bytes of several records laid end to end. */
  function Concat(logs: seq<seq<Byte>>): seq<Byte>
  {
    if logs == [] then [] else logs[0] + Concat(logs[1..])
  }

  lemma {:induction false} ConcatAppend(a: seq<seq<Byte>>, b: seq<seq<Byte>>)
    ensures Concat(a + b) == Concat(a) + Concat(b)
  {
    if a != [] {
      assert (a + b)[0] == a[0] && (a + b)[1..] == a[1..] + b;
      ConcatAppend(a[1..], b);
    } else {
      assert a + b == b;
    }
  }

  /** The fold of `checkAndRemoveTail`: one `calChecksum` per record. */
  function FoldLogs(x: int, logs: seq<seq<Byte>>): (r: int)
    requires IsInt32(x)
    ensures IsInt32(r)
    decreases |logs|
  {
    if logs == [] then x else FoldLogs(CalChecksum(x, logs[0]), logs[1..])
  }

  /** Folding record by record is folding their concatenated bytes. */
  lemma {:induction false} FoldIsChecksumOfConcat(x: int, logs: seq<seq<Byte>>)
    requires IsInt32(x)
    ensures FoldLogs(x, logs) == CalChecksum(x, Concat(logs))
    decreases |logs|
  {
    if logs != [] {
      ChecksumConcat(x, logs[0], Concat(logs[1..]));
      FoldIsChecksumOfConcat(CalChecksum(x, logs[0]), logs[1..]);
    }
  }

  /** One more record folds in after the others. */
  lemma FoldLogsAppend(x: int, logs: seq<seq<Byte>>, log: seq<Byte>)
    requires IsInt32(x)
    ensures FoldLogs(x, logs + [log]) == CalChecksum(FoldLogs(x, logs), log)
  {
    FoldIsChecksumOfConcat(x, logs + [log]);
    FoldIsChecksumOfConcat(x, logs);
    ConcatAppend(logs, [log]);
    assert Concat([log]) == log by {
      assert [log][1..] == [];
    }
    ChecksumConcat(x, Concat(logs), log);
  }

  /** A framed record is a well-formed record. */
  lemma WrapLogIsRecord(data: seq<Byte>)
    requires |data| < TWO_31
    ensures IsRecord(WrapLog(data))
  {
    WrapLogFields(data);
  }

  // ---------------------------------------------------------------------------------------------
  // Reading records: `internNext` and the scan of `checkAndRemoveTail`

  /** A `FileChannel` read of `n` bytes at `pos`: bytes past the end of the file are not read,
      so they stay as the zeros of the freshly allocated buffer. */
  function ReadAt(file: seq<Byte>, pos: int, n: nat): (r: seq<Byte>)
    requires pos >= 0
    ensures |r| == n
  {
    seq<Byte>(n, i => ByteAt(file, pos + i))
  }

  /** Within the file, a read returns the file's bytes. */
  lemma ReadAtInFile(file: seq<Byte>, pos: int, n: nat)
    requires pos >= 0 && pos + n <= |file|
    ensures ReadAt(file, pos, n) == file[pos..pos + n]
  {
    forall i | 0 <= i < n
      ensures ReadAt(file, pos, n)[i] == file[pos..pos + n][i]
    {
      ReadAtByte(file, pos, n, i);
    }
  }

  /** Wholly past the end of the file, a read returns zeros. */
  lemma ReadAtPastEnd(file: seq<Byte>, pos: int, n: nat)
    requires pos >= |file|
    ensures ReadAt(file, pos, n) == Zeros(n)
  {
    forall i | 0 <= i < n
      ensures ReadAt(file, pos, n)[i] == Zeros(n)[i]
    {
      ReadAtByte(file, pos, n, i);
    }
  }

  /** The byte a read sees at `i`: the file's byte, or the buffer's zero past the end. */
  function ByteAt(file: seq<Byte>, i: int): Byte
  {
    if 0 <= i < |file| then file[i] else 0
  }

  /** The size field `internNext` reads at `pos`, as a Java `int`. */
  function SizeAt(file: seq<Byte>, pos: int): (r: int)
  {
    var u := ByteAt(file, pos) * 0x100_0000 + ByteAt(file, pos + 1) * 0x1_0000
             + ByteAt(file, pos + 2) * 0x100 + ByteAt(file, pos + 3);
    if u >= TWO_31 then u - TWO_32 else u
  }

  lemma ReadAtByte(file: seq<Byte>, pos: int, n: nat, i: int)
    requires pos >= 0 && 0 <= i < n
    ensures ReadAt(file, pos, n)[i] == ByteAt(file, pos + i)
  {
  }

  /** `calChecksum` of the bytes a read sees from `i` up to `end`. */
  function ChecksumAt(x: int, file: seq<Byte>, i: int, end: int): (r: int)
    requires IsInt32(x)
    ensures IsInt32(r)
    decreases end - i
  {
    if i >= end then x else ChecksumAt(Step(x, ByteAt(file, i)), file, i + 1, end)
  }

  /** A slice of a read is the read of the slice. */
  lemma ReadAtSlice(file: seq<Byte>, pos: int, n: nat, a: nat, b: nat)
    requires pos >= 0 && a <= b <= n
    ensures ReadAt(file, pos, n)[a..b] == ReadAt(file, pos + a, b - a)
  {
    forall i | 0 <= i < b - a
      ensures ReadAt(file, pos, n)[a..b][i] == ReadAt(file, pos + a, b - a)[i]
    {
      ReadAtByte(file, pos, n, a + i);
      ReadAtByte(file, pos + a, b - a, i);
    }
  }

  lemma {:induction false} ChecksumAtReads(x: int, file: seq<Byte>, pos: int, n: nat)
    requires IsInt32(x) && pos >= 0
    ensures ChecksumAt(x, file, pos, pos + n) == CalChecksum(x, ReadAt(file, pos, n))
    decreases n
  {
    if n > 0 {
      var s := ReadAt(file, pos, n);
      ReadAtByte(file, pos, n, 0);
      ReadAtSlice(file, pos, n, 1, n);
      assert s[1..] == s[1..n];
      ChecksumAtReads(Step(x, ByteAt(file, pos)), file, pos + 1, n - 1);
    }
  }

  /** The fields of the `size`-byte record read at `pos`, as `internNext` checks them. */
  lemma LogFields(file: seq<Byte>, pos: int, size: nat)
    requires pos >= 0
    ensures var log := ReadAt(file, pos, OF_DATA + size);
            ParseInt(log[OF_SIZE..OF_CHECKSUM]) == SizeAt(file, pos)
            && ParseInt(log[OF_CHECKSUM..OF_DATA]) == SizeAt(file, pos + OF_CHECKSUM)
            && CalChecksum(0, log[OF_DATA..]) == ChecksumAt(0, file, pos + OF_DATA, pos + OF_DATA + size)
  {
    var log := ReadAt(file, pos, OF_DATA + size);
    ReadAtSlice(file, pos, OF_DATA + size, OF_SIZE, OF_CHECKSUM);
    ReadAtSlice(file, pos, OF_DATA + size, OF_CHECKSUM, OF_DATA);
    ReadAtSlice(file, pos, OF_DATA + size, OF_DATA, OF_DATA + size);
    assert log[OF_DATA..] == log[OF_DATA..OF_DATA + size];
    SizeAtParses(file, pos);
    SizeAtParses(file, pos + OF_CHECKSUM);
    ChecksumAtReads(0, file, pos + OF_DATA, size);
  }

  /** `SizeAt` is `parseInt` of the four bytes read at `pos`. */
  lemma SizeAtParses(file: seq<Byte>, pos: int)
    requires pos >= 0
    ensures SizeAt(file, pos) == ParseInt(ReadAt(file, pos, 4))
  {
    var b := ReadAt(file, pos, 4);
    ReadAtByte(file, pos, 4, 0);
    ReadAtByte(file, pos, 4, 1);
    ReadAtByte(file, pos, 4, 2);
    ReadAtByte(file, pos, 4, 3);
    Unsigned4(b);
    Pow256Widths();
  }

  /** What `internNext` returns. `Fault` is a negative size field, on which the Java code throws
      (a negative `ByteBuffer.allocate`, or `copyOfRange` with from > to). */
  datatype NextResult = Record(log: seq<Byte>) | NoRecord | Fault

  /** Is `log` a well-formed record: its size field is its data length and its checksum field
      the checksum of its data. */
  predicate IsRecord(log: seq<Byte>)
  {
    |log| >= OF_DATA
    && ParseInt(log[OF_SIZE..OF_CHECKSUM]) == |log| - OF_DATA
    && ParseInt(log[OF_CHECKSUM..OF_DATA]) == CalChecksum(0, log[OF_DATA..])
  }

  predicate AllRecords(logs: seq<seq<Byte>>)
  {
    forall i :: 0 <= i < |logs| ==> IsRecord(logs[i])
  }

  /** `internNext` at `pos`, bounds-checked against `fileSize` (the length recorded at open). */
  function InternNextAt(file: seq<Byte>, fileSize: int, pos: int): (r: NextResult)
    requires pos >= 0
    ensures pos + OF_DATA >= fileSize ==> r == NoRecord
    ensures r.Record? ==> OF_DATA <= |r.log| && pos + |r.log| <= fileSize
  {
    if pos + OF_DATA >= fileSize then NoRecord
    else
      var size := SizeAt(file, pos);
      if pos + size + OF_DATA > fileSize then NoRecord
      else if size < 0 then Fault
      else
        if ChecksumAt(0, file, pos + OF_DATA, pos + OF_DATA + size) != SizeAt(file, pos + OF_CHECKSUM)
        then NoRecord
        else Record(ReadAt(file, pos, OF_DATA + size))
  }

  /** A record `internNext` returns is well formed. */
  lemma InternNextReadsRecord(file: seq<Byte>, fileSize: int, pos: int)
    requires pos >= 0 && InternNextAt(file, fileSize, pos).Record?
    ensures IsRecord(InternNextAt(file, fileSize, pos).log)
  {
    LogFields(file, pos, SizeAt(file, pos));
  }

  /** A record `internNext` returns within the file is the bytes at `pos`. */
  lemma InternNextReadsFile(file: seq<Byte>, fileSize: int, pos: int)
    requires pos >= 0 && fileSize <= |file| && InternNextAt(file, fileSize, pos).Record?
    ensures var log := InternNextAt(file, fileSize, pos).log; log == file[pos..pos + |log|]
  {
    ReadAtInFile(file, pos, |InternNextAt(file, fileSize, pos).log|);
  }

  /** A well-formed record is the framing of its own data. */
  lemma RecordIsWrapped(log: seq<Byte>)
    requires IsRecord(log)
    ensures |log[OF_DATA..]| < TWO_31 && log == WrapLog(log[OF_DATA..])
  {
    var d := log[OF_DATA..];
    IntBytesRoundTrip(log[OF_SIZE..OF_CHECKSUM]);
    IntBytesRoundTrip(log[OF_CHECKSUM..OF_DATA]);
    var w := WrapLog(d);
    WrapLogFields(d);
    IntBytesRoundTrip(w[OF_SIZE..OF_CHECKSUM]);
    IntBytesRoundTrip(w[OF_CHECKSUM..OF_DATA]);
    assert log == log[OF_SIZE..OF_CHECKSUM] + log[OF_CHECKSUM..OF_DATA] + d;
    assert w == w[OF_SIZE..OF_CHECKSUM] + w[OF_CHECKSUM..OF_DATA] + d;
  }

  /** A whole framed record at `pos` is returned entire, unless it is an empty record ending
      exactly at `fileSize` (the `>=` of the first bounds check). */
  lemma InternNextReadsWrapped(file: seq<Byte>, fileSize: int, pos: int, d: seq<Byte>)
    requires |d| < TWO_31 && 0 <= pos && fileSize <= |file|
    requires pos + OF_DATA + |d| <= fileSize && pos + OF_DATA < fileSize
    requires file[pos..pos + OF_DATA + |d|] == WrapLog(d)
    ensures InternNextAt(file, fileSize, pos) == Record(WrapLog(d))
  {
    WrapLogIsRecord(d);
    InternNextAtRecord(file, fileSize, pos, WrapLog(d));
  }

  /** An empty payload logged last is never read back. */
  lemma EmptyRecordAtEndIsMissed(file: seq<Byte>, pos: int)
    requires 0 <= pos && pos + OF_DATA == |file| && file[pos..] == WrapLog([])
    ensures InternNextAt(file, |file|, pos) == NoRecord
  {
  }

  /** A size field that overruns the file ends the scan. */
  lemma OverrunEndsScan(file: seq<Byte>, fileSize: int, pos: int)
    requires 0 <= pos && pos + 4 <= |file| && pos + ParseInt(file[pos..pos + 4]) + OF_DATA > fileSize
    ensures InternNextAt(file, fileSize, pos) == NoRecord
  {
    SizeAtParses(file, pos);
    ReadAtInFile(file, pos, 4);
  }

  /** A record whose data does not match its checksum field ends the scan. */
  lemma ChecksumMismatchEndsScan(file: seq<Byte>, fileSize: int, pos: int, size: int)
    requires 0 <= pos && fileSize <= |file| && pos + OF_DATA < fileSize
    requires size == ParseInt(file[pos..pos + 4]) && 0 <= size && pos + OF_DATA + size <= fileSize
    requires CalChecksum(0, file[pos + OF_DATA..pos + OF_DATA + size]) != ParseInt(file[pos + OF_CHECKSUM..pos + OF_DATA])
    ensures InternNextAt(file, fileSize, pos) == NoRecord
  {
    LogFields(file, pos, size);
    SizeAtParses(file, pos);
    ReadAtInFile(file, pos, 4);
    ReadAtInFile(file, pos, OF_DATA + size);
    var log := ReadAt(file, pos, OF_DATA + size);
    assert log == file[pos..pos + OF_DATA + size];
    assert log[OF_DATA..] == file[pos + OF_DATA..pos + OF_DATA + size];
    assert log[OF_CHECKSUM..OF_DATA] == file[pos + OF_CHECKSUM..pos + OF_DATA];
  }

  /** A crash tail that is a proper prefix of a framed record is never taken for a record. */
  lemma TruncatedRecordIsBadTail(file: seq<Byte>, pos: int, d: seq<Byte>, k: nat)
    requires |d| < TWO_31 && 0 <= pos && k < OF_DATA + |d|
    requires pos + k == |file| && file[pos..] == WrapLog(d)[..k]
    ensures InternNextAt(file, |file|, pos) == NoRecord
  {
    if pos + OF_DATA < |file| {
      WrapLogFields(d);
      SizeAtParses(file, pos);
      assert ReadAt(file, pos, 4) == WrapLog(d)[OF_SIZE..OF_CHECKSUM];
    }
  }

  /** The outcome of the scan loop: the records read and the position where it stopped. */
  datatype ScanResult = Scanned(logs: seq<seq<Byte>>, end: int) | ScanFault

  /** `ls` read first, then the outcome `r`. */
  function Prepend(ls: seq<seq<Byte>>, r: ScanResult): ScanResult
  {
    match r
    case ScanFault => ScanFault
    case Scanned(logs, end) => Scanned(ls + logs, end)
  }

  /** Repeated `internNext` from `pos` until it returns null. */
  function Scan(file: seq<Byte>, fileSize: int, pos: int): (r: ScanResult)
    requires 0 <= pos <= fileSize
    ensures r.Scanned? ==> pos <= r.end <= fileSize && r.end == pos + |Concat(r.logs)|
    decreases fileSize - pos
  {
    match InternNextAt(file, fileSize, pos)
    case NoRecord => Scanned([], pos)
    case Fault => ScanFault
    case Record(log) =>
      var rest := Scan(file, fileSize, pos + |log|);
      if rest.ScanFault? then ScanFault
      else
        assert Concat([log] + rest.logs) == log + Concat(rest.logs);
        Scanned([log] + rest.logs, rest.end)
  }

  /** The payloads of records, as `next` returns them. */
  function Payloads(logs: seq<seq<Byte>>): (r: seq<seq<Byte>>)
    requires forall i :: 0 <= i < |logs| ==> |logs[i]| >= OF_DATA
    ensures |r| == |logs| && forall i :: 0 <= i < |logs| ==> r[i] == logs[i][OF_DATA..]
  {
    if logs == [] then [] else [logs[0][OF_DATA..]] + Payloads(logs[1..])
  }

  predicate NonEmptyPayloads(ds: seq<seq<Byte>>)
  {
    forall i :: 0 <= i < |ds| ==> |ds[i]| > 0
  }

  lemma PayloadsOfWraps(ds: seq<seq<Byte>>)
    requires Framable(ds)
    ensures Payloads(Wraps(ds)) == ds
  {
  }

  /** One record read, then the rest of the scan. */
  lemma ScanStep(file: seq<Byte>, fileSize: int, pos: int, log: seq<Byte>, logs: seq<seq<Byte>>, end: int, next: int)
    requires 0 <= pos <= fileSize && InternNextAt(file, fileSize, pos) == Record(log)
    requires next == pos + |log| <= fileSize && Scan(file, fileSize, next) == Scanned(logs, end)
    ensures Scan(file, fileSize, pos) == Scanned([log] + logs, end)
  {
  }

  /** The same step, whatever the rest of the scan returns. */
  lemma ScanPrepend(file: seq<Byte>, fileSize: int, pos: int, log: seq<Byte>, next: int)
    requires 0 <= pos <= fileSize && InternNextAt(file, fileSize, pos) == Record(log)
    requires next == pos + |log|
    ensures next <= fileSize
    ensures Scan(file, fileSize, pos) == Prepend([log], Scan(file, fileSize, next))
  {
    var rest := Scan(file, fileSize, next);
    if rest.Scanned? {
      ScanStep(file, fileSize, pos, log, rest.logs, rest.end, next);
    }
  }

  lemma PrependNothing(r: ScanResult)
    ensures Prepend([], r) == r
  {
    if r.Scanned? {
      assert [] + r.logs == r.logs;
    }
  }

  lemma PrependAppend(a: seq<seq<Byte>>, b: seq<seq<Byte>>, r: ScanResult)
    ensures Prepend(a, Prepend(b, r)) == Prepend(a + b, r)
  {
    if r.Scanned? {
      assert a + (b + r.logs) == (a + b) + r.logs;
    }
  }

  /** Two prepends in a row are one. */
  lemma PrependChain(whole: ScanResult, mid: ScanResult, rest: ScanResult, logs: seq<seq<Byte>>, log: seq<Byte>)
    requires whole == Prepend(logs, mid) && mid == Prepend([log], rest)
    ensures whole == Prepend(logs + [log], rest)
  {
    PrependAppend(logs, [log], rest);
  }

  /** The records read so far are the bytes after the header, one more included. */
  lemma RecordsPastRecord(f: seq<Byte>, p: int, log: seq<Byte>, logs: seq<seq<Byte>>, next: int)
    requires 4 <= p && next == p + |log| <= |f| && f[p..next] == log && f[4..p] == Concat(logs)
    ensures f[4..next] == Concat(logs + [log])
  {
    ConcatAppend(logs, [log]);
    assert Concat([log]) == log by {
      assert [log][1..] == [];
    }
    assert f[4..next] == f[4..p] + f[p..next];
  }

  lemma AllRecordsAppend(logs: seq<seq<Byte>>, log: seq<Byte>)
    requires AllRecords(logs) && IsRecord(log)
    ensures AllRecords(logs + [log])
  {
    assert forall i :: 0 <= i < |logs| ==> (logs + [log])[i] == logs[i];
  }

  /** What the scan loop of `checkAndRemoveTail` knows on reaching `pos`: the records read so far
      are the bytes from the header to `pos`, the scan from the header begins with them, and
      `xCheck` is their fold. */
  ghost predicate TailLoop(f: seq<Byte>, pos: int, logs: seq<seq<Byte>>, xCheck: int)
  {
    4 <= pos <= |f| && f[4..pos] == Concat(logs) && AllRecords(logs)
    && Scan(f, |f|, 4) == Prepend(logs, Scan(f, |f|, pos)) && xCheck == FoldLogs(0, logs)
  }

  lemma TailLoopStep(f: seq<Byte>, pos: int, log: seq<Byte>, logs: seq<seq<Byte>>, xCheck: int, next: int)
    requires TailLoop(f, pos, logs, xCheck) && InternNextAt(f, |f|, pos) == Record(log)
    requires next == pos + |log|
    ensures TailLoop(f, next, logs + [log], CalChecksum(xCheck, log))
  {
    InternNextReadsRecord(f, |f|, pos);
    InternNextReadsFile(f, |f|, pos);
    ScanPrepend(f, |f|, pos, log, next);
    PrependChain(Scan(f, |f|, 4), Scan(f, |f|, pos), Scan(f, |f|, next), logs, log);
    RecordsPastRecord(f, pos, log, logs, next);
    FoldLogsAppend(0, logs, log);
    AllRecordsAppend(logs, log);
  }

  /** A throwing read makes `init` fail. */
  lemma TailLoopFault(f: seq<Byte>, pos: int, logs: seq<seq<Byte>>, xCheck: int)
    requires TailLoop(f, pos, logs, xCheck) && InternNextAt(f, |f|, pos) == Fault
    ensures ValidEnd(f) == None
  {
  }

  /** When the loop stops, `init` succeeds exactly if the fold matches the header, and then
      keeps the bytes up to `pos`: the header and the records read. */
  lemma TailLoopEnd(f: seq<Byte>, pos: int, logs: seq<seq<Byte>>, xCheck: int)
    requires TailLoop(f, pos, logs, xCheck) && InternNextAt(f, |f|, pos) == NoRecord
    ensures ValidEnd(f) == if xCheck == ParseInt(f[..4]) then Some(pos) else None
    ensures xCheck == ParseInt(f[..4]) ==>
              f[..pos][..4] == Int2Bytes(xCheck) && f[..pos][4..] == Concat(logs)
              && xCheck == CalChecksum(0, f[..pos][4..])
  {
    assert Scan(f, |f|, 4) == Scanned(logs, pos) by {
      assert logs + [] == logs;
    }
    FoldIsChecksumOfConcat(0, logs);
    IntBytesRoundTrip(f[..4]);
    assert f[..pos][..4] == f[..4];
    assert f[..pos][4..] == f[4..pos];
  }

  lemma ConcatWrapsCons(ds: seq<seq<Byte>>)
    requires Framable(ds) && ds != []
    ensures Wraps(ds) == [WrapLog(ds[0])] + Wraps(ds[1..])
    ensures Concat(Wraps(ds)) == WrapLog(ds[0]) + Concat(Wraps(ds[1..]))
  {
    assert Wraps(ds)[1..] == Wraps(ds[1..]);
  }

  /** Where `a + b` lies in `s` at `i`, `a` lies at `i` and `b` right after it. */
  lemma PrefixSplit(s: seq<Byte>, i: nat, a: seq<Byte>, b: seq<Byte>)
    requires i + |a| + |b| <= |s| && s[i..i + |a| + |b|] == a + b
    ensures s[i..i + |a|] == a && s[i + |a|..i + |a| + |b|] == b
  {
    assert s[i..i + |a|] == (a + b)[..|a|];
    assert s[i + |a|..i + |a| + |b|] == (a + b)[|a|..];
  }

  /** The records framing `ds` lie in `file` end to end from `pos` to `end`. */
  predicate LaidOut(file: seq<Byte>, pos: int, end: int, ds: seq<seq<Byte>>)
    decreases |ds|
  {
    if ds == [] then pos == end
    else
      0 <= pos && |ds[0]| < TWO_31 && pos + OF_DATA + |ds[0]| <= |file|
      && file[pos..pos + OF_DATA + |ds[0]|] == WrapLog(ds[0])
      && LaidOut(file, pos + OF_DATA + |ds[0]|, end, ds[1..])
  }

  /** The bytes of the framed records at `pos` are the records laid out end to end. */
  lemma {:induction false} ConcatIsLaidOut(file: seq<Byte>, pos: int, ds: seq<seq<Byte>>)
    requires Framable(ds) && 0 <= pos && pos + |Concat(Wraps(ds))| <= |file|
    requires file[pos..pos + |Concat(Wraps(ds))|] == Concat(Wraps(ds))
    ensures LaidOut(file, pos, pos + |Concat(Wraps(ds))|, ds)
    decreases |ds|
  {
    if ds != [] {
      var w := WrapLog(ds[0]);
      ConcatWrapsCons(ds);
      PrefixSplit(file, pos, w, Concat(Wraps(ds[1..])));
      ConcatIsLaidOut(file, pos + |w|, ds[1..]);
    }
  }

  /** Scanning records laid end to end up to `end`, where a tail that is no record starts,
      reads exactly those records and stops at `end`. */
  lemma {:induction false} ScanLaidOut(file: seq<Byte>, fileSize: int, pos: int, end: int, ds: seq<seq<Byte>>)
    requires Framable(ds) && NonEmptyPayloads(ds) && LaidOut(file, pos, end, ds)
    requires 0 <= pos <= end <= fileSize <= |file| && InternNextAt(file, fileSize, end) == NoRecord
    ensures Scan(file, fileSize, pos) == Scanned(Wraps(ds), end)
    decreases |ds|
  {
    if ds != [] {
      var w := WrapLog(ds[0]);
      assert LaidOut(file, pos + |w|, end, ds[1..]);
      LaidOutEndsLater(file, pos + |w|, end, ds[1..]);
      ScanLaidOut(file, fileSize, pos + |w|, end, ds[1..]);
      ScanWrappedStep(file, fileSize, pos, ds[0], Wraps(ds[1..]), end, pos + |w|);
      assert Wraps(ds) == [w] + Wraps(ds[1..]);
    }
  }

  /** A framed record at `pos`, then the rest of the scan. */
  lemma ScanWrappedStep(file: seq<Byte>, fileSize: int, pos: int, d: seq<Byte>, logs: seq<seq<Byte>>,
                        end: int, next: int)
    requires |d| < TWO_31 && 0 <= pos && fileSize <= |file| && next == pos + OF_DATA + |d|
    requires next <= fileSize && pos + OF_DATA < fileSize && file[pos..next] == WrapLog(d)
    requires Scan(file, fileSize, next) == Scanned(logs, end)
    ensures Scan(file, fileSize, pos) == Scanned([WrapLog(d)] + logs, end)
  {
    InternNextReadsWrapped(file, fileSize, pos, d);
    ScanStep(file, fileSize, pos, WrapLog(d), logs, end, next);
  }

  lemma {:induction false} LaidOutEndsLater(file: seq<Byte>, pos: int, end: int, ds: seq<seq<Byte>>)
    requires LaidOut(file, pos, end, ds)
    ensures pos <= end
    decreases |ds|
  {
    if ds != [] {
      LaidOutEndsLater(file, pos + OF_DATA + |ds[0]|, end, ds[1..]);
    }
  }

  /** Records laid end to end, followed by a tail that is no record, scan as exactly those
      records. */
  lemma ScanWrapped(file: seq<Byte>, fileSize: int, pos: int, ds: seq<seq<Byte>>)
    requires Framable(ds) && NonEmptyPayloads(ds)
    requires 0 <= pos && fileSize <= |file| && pos + |Concat(Wraps(ds))| <= fileSize
    requires file[pos..pos + |Concat(Wraps(ds))|] == Concat(Wraps(ds))
    requires InternNextAt(file, fileSize, pos + |Concat(Wraps(ds))|) == NoRecord
    ensures Scan(file, fileSize, pos) == Scanned(Wraps(ds), pos + |Concat(Wraps(ds))|)
  {
    ConcatIsLaidOut(file, pos, ds);
    ScanLaidOut(file, fileSize, pos, pos + |Concat(Wraps(ds))|, ds);
  }

  /** A tail of at most 8 bytes is always a bad tail. */
  lemma ShortTailIsBadTail(file: seq<Byte>, pos: int)
    requires 0 <= pos && |file| - pos <= OF_DATA
    ensures InternNextAt(file, |file|, pos) == NoRecord
  {
  }

  /** Records read back are the framings of their payloads. */
  lemma {:induction false} RecordsAreWraps(logs: seq<seq<Byte>>)
    requires AllRecords(logs)
    ensures Framable(Payloads(logs)) && Wraps(Payloads(logs)) == logs
  {
    if logs != [] {
      RecordIsWrapped(logs[0]);
      RecordsAreWraps(logs[1..]);
      assert Payloads(logs)[1..] == Payloads(logs[1..]);
    }
  }

  // ---------------------------------------------------------------------------------------------
  // Opening a log file: `init` and `checkAndRemoveTail`

  /** What a successful `init` leaves behind: the truncated file, the `fileSize` bound that
      `internNext` checks against, and the header checksum. */
  datatype Opened = Opened(file: seq<Byte>, fileSize: int, xChecksum: int)

  /** The verdict of `checkAndRemoveTail` on the file bytes `raw`: the end of the last record
      the scan reads, or `None` where `init` panics (a file shorter than its header, a scan
      that throws, or records whose fold differs from the header). */
  function ValidEnd(raw: seq<Byte>): (r: Option<int>)
    ensures |raw| < 4 ==> r == None
    ensures r.Some? ==> 4 <= r.value <= |raw|
  {
    if |raw| < 4 then None
    else
      match Scan(raw, |raw|, 4)
      case ScanFault => None
      case Scanned(logs, end) => if FoldLogs(0, logs) == ParseInt(raw[..4]) then Some(end) else None
  }

  /** `init` with the bad tail removed and `fileSize` set to the truncated length. */
  function Open(raw: seq<Byte>): (r: Option<Opened>)
    ensures r.Some? <==> ValidEnd(raw).Some?
    ensures r.Some? ==> var o := r.value;
                        o.fileSize == |o.file| == ValidEnd(raw).value && o.file == raw[..o.fileSize]
                        && o.xChecksum == ParseInt(raw[..4])
  {
    match ValidEnd(raw)
    case None => None
    case Some(end) => Some(Opened(raw[..end], end, ParseInt(raw[..4])))
  }

  /** `init` as written: the bad tail is truncated, but `fileSize` keeps the length read
      before the truncation. */
  function OpenAsWritten(raw: seq<Byte>): (r: Option<Opened>)
    ensures r.Some? <==> ValidEnd(raw).Some?
    ensures r.Some? ==> var o := r.value;
                        o.fileSize == |raw| && |o.file| == ValidEnd(raw).value && o.file == raw[..|o.file|]
                        && o.xChecksum == ParseInt(raw[..4])
  {
    match ValidEnd(raw)
    case None => None
    case Some(end) => Some(Opened(raw[..end], |raw|, ParseInt(raw[..4])))
  }

  /** The file `log` produces from an empty log: the header holding the checksum of the
      framed records, then the records. */
  function LogFile(ds: seq<seq<Byte>>): (r: seq<Byte>)
    requires Framable(ds)
    ensures |r| == 4 + |Concat(Wraps(ds))| && r[4..] == Concat(Wraps(ds))
  {
    Int2Bytes(CalChecksum(0, Concat(Wraps(ds)))) + Concat(Wraps(ds))
  }

  lemma LogFileHeader(ds: seq<seq<Byte>>, tail: seq<Byte>)
    requires Framable(ds)
    ensures var raw := LogFile(ds) + tail; var body := Concat(Wraps(ds));
            raw[..4] == Int2Bytes(CalChecksum(0, body)) && raw[..4 + |body|] == LogFile(ds)
            && raw[4..4 + |body|] == body && raw[4 + |body|..] == tail
  {
    var raw := LogFile(ds) + tail;
    assert raw[..4] == LogFile(ds)[..4];
    assert raw[..4 + |Concat(Wraps(ds))|] == LogFile(ds);
  }

  /** Opening a log whose records were written whole, followed by a crash tail that is no
      record, keeps exactly the records and truncates the tail. */
  lemma OpenDropsBadTail(ds: seq<seq<Byte>>, tail: seq<Byte>)
    requires Framable(ds) && NonEmptyPayloads(ds)
    requires InternNextAt(LogFile(ds) + tail, |LogFile(ds) + tail|, |LogFile(ds)|) == NoRecord
    ensures Scan(LogFile(ds) + tail, |LogFile(ds) + tail|, 4) == Scanned(Wraps(ds), |LogFile(ds)|)
    ensures Open(LogFile(ds) + tail)
            == Some(Opened(LogFile(ds), |LogFile(ds)|, CalChecksum(0, Concat(Wraps(ds)))))
  {
    var raw := LogFile(ds) + tail;
    var body := Concat(Wraps(ds));
    LogFileHeader(ds, tail);
    ScanWrapped(raw, |raw|, 4, ds);
    FoldIsChecksumOfConcat(0, Wraps(ds));
    IntRoundTrip(CalChecksum(0, body));
  }

  /** After such an open, a rescan from the first record (`rewind` then `next` until null)
      reads back exactly the records logged, and `next` returns exactly the payloads. */
  lemma RescanReadsLogged(ds: seq<seq<Byte>>)
    requires Framable(ds) && NonEmptyPayloads(ds)
    ensures Scan(LogFile(ds), |LogFile(ds)|, 4) == Scanned(Wraps(ds), |LogFile(ds)|)
    ensures Payloads(Wraps(ds)) == ds
  {
    LogFileHeader(ds, []);
    assert LogFile(ds) + [] == LogFile(ds);
    ScanWrapped(LogFile(ds), |LogFile(ds)|, 4, ds);
    PayloadsOfWraps(ds);
  }

  /** Records whose fold differs from the header make the open fatal. */
  lemma OpenRejectsWrongHeader(x: int, ds: seq<seq<Byte>>, tail: seq<Byte>)
    requires IsInt32(x) && Framable(ds) && NonEmptyPayloads(ds)
    requires x != CalChecksum(0, Concat(Wraps(ds)))
    requires var raw := Int2Bytes(x) + Concat(Wraps(ds)) + tail;
             InternNextAt(raw, |raw|, 4 + |Concat(Wraps(ds))|) == NoRecord
    ensures Open(Int2Bytes(x) + Concat(Wraps(ds)) + tail) == None
  {
    var body := Concat(Wraps(ds));
    var raw := Int2Bytes(x) + body + tail;
    HeaderSplit(Int2Bytes(x), body, tail);
    ScanWrapped(raw, |raw|, 4, ds);
    FoldIsChecksumOfConcat(0, Wraps(ds));
    IntRoundTrip(x);
    ValidEndOfScan(raw, Wraps(ds), 4 + |body|);
  }

  lemma HeaderSplit(h: seq<Byte>, body: seq<Byte>, tail: seq<Byte>)
    requires |h| == 4
    ensures (h + body + tail)[..4] == h && (h + body + tail)[4..4 + |body|] == body
  {
    assert (h + body + tail)[..4] == h;
    assert (h + body + tail)[4..4 + |body|] == body;
  }

  /** The verdict once the scan from the header is known. */
  lemma ValidEndOfScan(raw: seq<Byte>, logs: seq<seq<Byte>>, end: int)
    requires 4 <= |raw| && Scan(raw, |raw|, 4) == Scanned(logs, end)
    ensures ValidEnd(raw) == if FoldLogs(0, logs) == ParseInt(raw[..4]) then Some(end) else None
  {
  }

  /** As written, once a bad tail of more than 8 bytes is truncated, reads past the new end
      see zeros up to the stale `fileSize`, and `internNext` returns a phantom empty record. */
  lemma PhantomRecordAfterOpen(raw: seq<Byte>)
    requires OpenAsWritten(raw).Some? && ValidEnd(raw).value + OF_DATA < |raw|
    ensures var o := OpenAsWritten(raw).value;
            InternNextAt(o.file, o.fileSize, |o.file|) == Record(Zeros(OF_DATA))
  {
    var o := OpenAsWritten(raw).value;
    ReadAtPastEnd(o.file, |o.file|, OF_DATA);
  }

  /** A concrete instance: an empty log (header 0) followed by a 9-byte crash tail. */
  lemma PhantomRecordExample()
    ensures var raw := [0, 0, 0, 0, 127, 127, 127, 127, 127, 127, 127, 127, 127];
            ValidEnd(raw) == Some(4)
            && OpenAsWritten(raw) == Some(Opened([0, 0, 0, 0], 13, 0))
            && InternNextAt([0, 0, 0, 0], 13, 4) == Record(Zeros(OF_DATA))
            && Open(raw) == Some(Opened([0, 0, 0, 0], 4, 0))
            && InternNextAt([0, 0, 0, 0], 4, 4) == NoRecord
  {
    var raw: seq<Byte> := [0, 0, 0, 0, 127, 127, 127, 127, 127, 127, 127, 127, 127];
    assert raw[4..8] == [127, 127, 127, 127];
    assert ReadAt(raw, 4, 4) == [127, 127, 127, 127];
    Pow256Widths();
    var b4: seq<Byte> := [127, 127, 127, 127];
    assert b4[..3][..2][..1][..0] == [];
    assert BytesToUnsigned(b4[..3][..2][..1]) == 127;
    assert BytesToUnsigned(b4[..3][..2]) == 127 * 256 + 127;
    assert BytesToUnsigned(b4[..3]) == (127 * 256 + 127) * 256 + 127;
    assert BytesToUnsigned(b4) == ((127 * 256 + 127) * 256 + 127) * 256 + 127;
    assert ParseInt([127, 127, 127, 127]) > 13;
    assert InternNextAt(raw, 13, 4) == NoRecord;
    assert Scan(raw, 13, 4) == Scanned([], 4);
    ZerosParseAsZero();
    assert raw[..4] == Zeros(4);
    assert raw[..4] == [0, 0, 0, 0];
    PhantomRecordAfterOpen(raw);
  }

  /** In a file of whole records after the header, `internNext` at the start of record `k`
      returns that record if it lies within `fileSize` and is not an empty record ending at
      `fileSize`, and no record otherwise; it never throws. */
  lemma {:induction false} ReadAtRecordStart(file: seq<Byte>, fileSize: int, records: seq<seq<Byte>>, k: nat)
    requires 4 <= |file| && file[4..] == Concat(records) && AllRecords(records)
    requires fileSize <= |file| && k <= |records|
    ensures var pos := 4 + |Concat(records[..k])|;
            InternNextAt(file, fileSize, pos)
            == if k < |records| && pos + |records[k]| <= fileSize && pos + OF_DATA < fileSize
               then Record(records[k]) else NoRecord
  {
    if k < |records| {
      RecordStartBytes(file, records, k, 4 + |Concat(records[..k])|);
      InternNextAtRecord(file, fileSize, 4 + |Concat(records[..k])|, records[k]);
    } else {
      assert records[..k] == records;
    }
  }

  /** Record `k` lies in the file at the end of the records before it. */
  lemma RecordStartBytes(file: seq<Byte>, records: seq<seq<Byte>>, k: nat, pos: int)
    requires 4 <= |file| && file[4..] == Concat(records) && AllRecords(records) && k < |records|
    requires pos == 4 + |Concat(records[..k])|
    ensures pos + |records[k]| <= |file| && file[pos..pos + |records[k]|] == records[k]
    ensures IsRecord(records[k])
  {
    assert records == records[..k] + records[k..];
    ConcatAppend(records[..k], records[k..]);
    var rec := records[k];
    assert records[k..] == [rec] + records[k + 1..];
    assert Concat(records[k..]) == rec + Concat(records[k + 1..]);
    PrefixSplit(file, pos, rec, Concat(records[k + 1..]));
  }

  /** `internNext` at a well-formed record in the file returns it if it lies within `fileSize`
      and is not an empty record ending at `fileSize`, and no record otherwise. */
  lemma InternNextAtRecord(file: seq<Byte>, fileSize: int, pos: int, rec: seq<Byte>)
    requires 0 <= pos && fileSize <= |file| && pos + |rec| <= |file|
    requires file[pos..pos + |rec|] == rec && IsRecord(rec)
    ensures InternNextAt(file, fileSize, pos)
            == if pos + |rec| <= fileSize && pos + OF_DATA < fileSize then Record(rec) else NoRecord
  {
    if pos + OF_DATA < fileSize {
      LogFields(file, pos, |rec| - OF_DATA);
      ReadAtInFile(file, pos, |rec|);
    }
  }

  /** Passing record `k` moves the start to that of record `k + 1`. */
  lemma ConcatPrefixStep(records: seq<seq<Byte>>, k: nat)
    requires k < |records|
    ensures Concat(records[..k + 1]) == Concat(records[..k]) + records[k]
  {
    assert records[..k + 1] == records[..k] + [records[k]];
    ConcatAppend(records[..k], [records[k]]);
    assert Concat([records[k]]) == records[k] + Concat([]);
  }

  /** A file the logger wrote, every record of which holds data, reopens to itself: nothing is
      truncated, and a rescan reads every record back. */
  lemma WrittenLogReopens(file: seq<Byte>, records: seq<seq<Byte>>, x: int)
    requires 4 <= |file| && IsInt32(x) && file[..4] == Int2Bytes(x)
    requires file[4..] == Concat(records) && AllRecords(records) && x == CalChecksum(0, file[4..])
    requires forall i :: 0 <= i < |records| ==> |records[i]| > OF_DATA
    ensures Open(file) == Some(Opened(file, |file|, x))
    ensures Scan(file, |file|, 4) == Scanned(records, |file|)
  {
    var ds := Payloads(records);
    RecordsAreWraps(records);
    assert NonEmptyPayloads(ds);
    assert file == file[..4] + file[4..];
    assert file == LogFile(ds) + [];
    OpenDropsBadTail(ds, []);
  }

  // ---------------------------------------------------------------------------------------------
  // The logger object

  /** `LoggerImpl`: the log file's bytes, the read cursor `position`, the length bound
      `fileSize` that reads are checked against, and the header checksum `xChecksum`. */
  class LoggerImpl {
    var file: seq<Byte>
    var position: int
    var fileSize: int
    var xChecksum: int
    /** The whole records after the header, and how many of them the cursor has passed. */
    ghost var records: seq<seq<Byte>>
    ghost var cursor: nat

    /** An opened log: the header holds the checksum of the records after it, which are whole,
        and the cursor is at the start of record `cursor`. */
    ghost predicate Valid()
      reads this
    {
      4 <= |file| && IsInt32(xChecksum) && file[..4] == Int2Bytes(xChecksum)
      && file[4..] == Concat(records) && AllRecords(records)
      && xChecksum == CalChecksum(0, file[4..])
      && fileSize <= |file|
      && cursor <= |records| && position == 4 + |Concat(records[..cursor])|
    }

    /** `LoggerImpl(raf, fc)`: a logger over the file bytes `raw`, not yet initialised. */
    constructor (raw: seq<Byte>)
      ensures file == raw && position == 0 && fileSize == 0 && xChecksum == 0
    {
      file := raw;
      position := 0;
      fileSize := 0;
      xChecksum := 0;
      records := [];
      cursor := 0;
    }

    /** `init`: fails (where the Java code panics) exactly when `Open` does, and otherwise
        leaves the state `Open` describes, with the cursor at the first record. */
    method Init() returns (ok: bool)
      modifies this
      ensures ok <==> Open(old(file)).Some?
      ensures ok ==> Valid() && position == 4 && cursor == 0
                     && Opened(file, fileSize, xChecksum) == Open(old(file)).value
    {
      var size := |file|;
      if size < 4 {
        return false;
      }
      ReadAtInFile(file, 0, 4);
      xChecksum := ParseInt(ReadAt(file, 0, 4));
      fileSize := size;
      ok := CheckAndRemoveTail();
    }

    /** `checkAndRemoveTail`: scans every record, compares their fold with the header, and
        truncates the file after the last record read. */
    method CheckAndRemoveTail() returns (ok: bool)
      requires 4 <= |file| && fileSize == |file| && xChecksum == ParseInt(file[..4])
      modifies this
      ensures ok <==> ValidEnd(old(file)).Some?
      ensures ok ==> Valid() && position == 4 && cursor == 0 && xChecksum == old(xChecksum)
                     && file == old(file)[..ValidEnd(old(file)).value] && fileSize == |file|
    {
      ghost var f, x := file, xChecksum;
      Rewind();
      var xCheck := 0;
      ghost var logs: seq<seq<Byte>> := [];
      assert TailLoop(f, 4, logs, xCheck) by {
        PrependNothing(Scan(f, |f|, 4));
      }
      while true
        invariant file == f && fileSize == |f| && xChecksum == x
        invariant TailLoop(f, position, logs, xCheck)
        decreases |f| - position
      {
        ghost var p := position;
        var r := InternNext();
        if r.Fault? {
          TailLoopFault(f, p, logs, xCheck);
          return false;
        }
        if r.NoRecord? {
          TailLoopEnd(f, p, logs, xCheck);
          break;
        }
        TailLoopStep(f, p, r.log, logs, xCheck, position);
        xCheck := Checksum(xCheck, r.log);
        logs := logs + [r.log];
      }
      if xCheck != xChecksum {
        return false;
      }
      Truncate(position);
      assert file == f[..position];
      fileSize := position;
      records := logs;
      Rewind();
      return true;
    }

    /** `truncate`: drops the bytes from `x` on (`FileChannel.truncate` leaves a file no longer
        than `x` as it is); `fileSize` is not updated. */
    method Truncate(x: int)
      requires 0 <= x
      modifies this
      ensures file == if x < |old(file)| then old(file)[..x] else old(file)
      ensures position == old(position) && fileSize == old(fileSize) && xChecksum == old(xChecksum)
      ensures records == old(records) && cursor == old(cursor)
    {
      if x < |file| {
        file := file[..x];
      }
    }

    /** `internNext`: the record at the cursor, if any, moving the cursor past it. */
    method InternNext() returns (r: NextResult)
      requires 0 <= position
      modifies this
      ensures r == InternNextAt(file, fileSize, old(position))
      ensures r.Record? ==> position == old(position) + |r.log|
      ensures !r.Record? ==> position == old(position)
      ensures file == old(file) && fileSize == old(fileSize) && xChecksum == old(xChecksum)
      ensures records == old(records) && cursor == old(cursor)
    {
      if position + OF_DATA >= fileSize {
        return NoRecord;
      }
      var size := ParseInt(ReadAt(file, position, 4));
      SizeAtParses(file, position);
      if position + size + OF_DATA > fileSize {
        return NoRecord;
      }
      if size < 0 {
        return Fault;
      }
      var log := ReadAt(file, position, OF_DATA + size);
      LogFields(file, position, size);
      if CalChecksum(0, log[OF_DATA..]) != ParseInt(log[OF_CHECKSUM..OF_DATA]) {
        return NoRecord;
      }
      position := position + |log|;
      return Record(log);
    }

    /** `next`: the payload of the record at the cursor. On an opened log it reads record
        `cursor` whenever that lies within `fileSize` (and is not an empty record ending there),
        and never throws. */
    method Next() returns (r: Option<seq<Byte>>)
      requires Valid()
      modifies this
      ensures Valid() && file == old(file) && fileSize == old(fileSize)
      ensures xChecksum == old(xChecksum) && records == old(records)
      ensures r.Some? <==> (old(cursor) < |records| && old(position) + |records[old(cursor)]| <= fileSize
                            && old(position) + OF_DATA < fileSize)
      ensures r.Some? ==> r.value == records[old(cursor)][OF_DATA..] && cursor == old(cursor) + 1
      ensures r.None? ==> position == old(position) && cursor == old(cursor)
    {
      ReadAtRecordStart(file, fileSize, records, cursor);
      var log := InternNext();
      if log.Record? {
        ConcatPrefixStep(records, cursor);
        cursor := cursor + 1;
        r := Some(log.log[OF_DATA..]);
      } else {
        r := None;
      }
    }

    /** `rewind`: back to the first record. */
    method Rewind()
      modifies this
      ensures position == 4 && cursor == 0
      ensures file == old(file) && fileSize == old(fileSize) && xChecksum == old(xChecksum)
      ensures records == old(records)
      ensures old(Valid()) ==> Valid()
    {
      position := 4;
      cursor := 0;
    }

    /** `log`: appends the framed record and folds it, header fields included, into the file
        checksum, which is rewritten in the header; `fileSize` is left as it was. */
    method Log(data: seq<Byte>)
      requires Valid() && |data| < TWO_31
      modifies this
      ensures Valid()
      ensures records == old(records) + [WrapLog(data)]
      ensures xChecksum == CalChecksum(old(xChecksum), WrapLog(data))
      ensures file == Int2Bytes(xChecksum) + old(file)[4..] + WrapLog(data)
      ensures position == old(position) && fileSize == old(fileSize) && cursor == old(cursor)
    {
      var log := WrapLog(data);
      ghost var body := file[4..];
      file := file + log;
      assert file[4..] == body + log;
      UpdateXChecksum(log);
      WrapLogIsRecord(data);
      ConcatAppend(records, [log]);
      assert Concat([log]) == log + Concat([]);
      ChecksumConcat(0, body, log);
      assert (records + [log])[..cursor] == records[..cursor];
      records := records + [log];
    }

    /** `updateXChecksum`: folds `log` into the file checksum and rewrites the header. */
    method UpdateXChecksum(log: seq<Byte>)
      requires 4 <= |file| && IsInt32(xChecksum)
      modifies this
      ensures xChecksum == CalChecksum(old(xChecksum), log)
      ensures file == Int2Bytes(xChecksum) + old(file)[4..]
      ensures position == old(position) && fileSize == old(fileSize)
      ensures records == old(records) && cursor == old(cursor)
    {
      xChecksum := Checksum(xChecksum, log);
      file := Int2Bytes(xChecksum) + file[4..];
    }

    /** `calChecksum`: the loop over the bytes of `log`. */
    method Checksum(xCheck: int, log: seq<Byte>) returns (r: int)
      requires IsInt32(xCheck)
      ensures r == CalChecksum(xCheck, log)
    {
      r := xCheck;
      var i := 0;
      while i < |log|
        invariant 0 <= i <= |log| && IsInt32(r)
        invariant CalChecksum(r, log[i..]) == CalChecksum(xCheck, log)
      {
        assert log[i..][1..] == log[i + 1..];
        r := Step(r, log[i]);
        i := i + 1;
      }
      assert log[i..] == [];
    }
  }
}

/** log::Reader: reading back any prefix of a log (db/log_reader.cc). The initial offset is 0
    and checksums are verified, as recovery uses it. */
module LogReader {
  import opened Bytes
  import opened LogFormat

  const EOF: nat := 5
  const BAD_RECORD: nat := 6

  /** Fragment `f` was written at position `p` of `whole`. */
  ghost predicate FragmentAt(crc: Checksum, whole: seq<byte>, p: nat, f: Fragment) {
    && |f.payload| <= Avail(p) && f.pad == Pad(p)
    && p + f.Size() <= |whole| && whole[p..p + f.Size()] == FragmentBytes(crc, f)
  }

  /** `bytes` stand at position `p` of `whole`. */
  ghost predicate BytesAt(whole: seq<byte>, p: nat, bytes: seq<byte>) {
    p + |bytes| <= |whole| && whole[p..p + |bytes|] == bytes
  }

  lemma HeaderOf(crc: Checksum, whole: seq<byte>, p: nat, f: Fragment, buffer: seq<byte>)
    requires FragmentAt(crc, whole, p, f) && |buffer| >= HEADER_SIZE
    requires p + f.pad + |buffer| <= |whole| && buffer == whole[p + f.pad..p + f.pad + |buffer|]
    ensures |f.payload| < BLOCK_SIZE
    ensures buffer[4] as int + buffer[5] as int * 0x100 == |f.payload| && buffer[6] == f.kind.Code()
    ensures Unmask(DecodeFixed32(buffer)) == crc([f.kind.Code()] + f.payload)
    ensures |buffer| >= HEADER_SIZE + |f.payload| ==>
              buffer[HEADER_SIZE..HEADER_SIZE + |f.payload|] == f.payload
  {
    var fb := FragmentBytes(crc, f);
    var sum := crc([f.kind.Code()] + f.payload);
    var tail := [|f.payload| % 0x100, |f.payload| / 0x100, f.kind.Code()] + f.payload;
    assert fb == Zeros(f.pad) + (EncodeFixed32(Mask(sum)) + tail);
    forall i | 0 <= i < |buffer| && i < HEADER_SIZE + |f.payload|
      ensures buffer[i] == (EncodeFixed32(Mask(sum)) + tail)[i]
    {
      assert buffer[i] == whole[p + f.pad + i] == whole[p..p + f.Size()][f.pad + i] == fb[f.pad + i];
    }
    Fixed32RoundTrip(Mask(sum), tail);
    UnmaskInvertsMask(sum);
  }

  /** The outcome of looking at one header: a record type code, the payload, what stays in the
      buffer, and the number of corruptions reported. */
  datatype Parsed = Parsed(code: nat, fragment: seq<byte>, rest: seq<byte>, reported: nat)

  function Parse(crc: Checksum, buffer: seq<byte>, eof: bool): Parsed
    requires |buffer| >= HEADER_SIZE
  {
    var kind := buffer[6];
    var length := buffer[4] as int + buffer[5] as int * 0x100;
    if HEADER_SIZE + length > |buffer| then
      // the writer may have died in the middle of the record: no corruption at the end of the file
      if eof then Parsed(EOF, [], [], 0) else Parsed(BAD_RECORD, [], [], 1)
    else if kind == 0 && length == 0 then Parsed(BAD_RECORD, [], [], 0)
    else if Unmask(DecodeFixed32(buffer)) != crc(buffer[6..HEADER_SIZE + length]) then Parsed(BAD_RECORD, [], [], 1)
    else Parsed(kind as nat, buffer[HEADER_SIZE..HEADER_SIZE + length], buffer[HEADER_SIZE + length..], 0)
  }

  /** A written fragment parses to itself, or to the end of the file if it is cut off. */
  lemma ParseWritten(crc: Checksum, whole: seq<byte>, p: nat, f: Fragment, buffer: seq<byte>, eof: bool)
    requires FragmentAt(crc, whole, p, f) && |buffer| >= HEADER_SIZE
    requires p + f.pad + |buffer| <= |whole| && buffer == whole[p + f.pad..p + f.pad + |buffer|]
    requires !eof ==> |buffer| >= HEADER_SIZE + |f.payload|
    ensures Parse(crc, buffer, eof) ==
      if |buffer| >= HEADER_SIZE + |f.payload|
      then Parsed(f.kind.Code() as nat, f.payload, buffer[HEADER_SIZE + |f.payload|..], 0)
      else Parsed(EOF, [], [], 0)
  {
    HeaderOf(crc, whole, p, f, buffer);
    if |buffer| >= HEADER_SIZE + |f.payload| {
      assert buffer[6..HEADER_SIZE + |f.payload|] == [f.kind.Code()] + f.payload;
    }
  }

  class Reader {
    const crc: Checksum
    const file: seq<byte>
    var filePos: nat          // how far the file has been read
    var buffer: seq<byte>
    var eof: bool             // the last read returned less than a block
    var reports: nat          // corruptions reported

    ghost predicate Valid()
      reads this
    {
      && |buffer| <= filePos <= |file| && buffer == file[filePos - |buffer|..filePos]
      && if eof then filePos == |file| && |buffer| <= filePos % BLOCK_SIZE
         else filePos % BLOCK_SIZE == 0 && |buffer| <= BLOCK_SIZE
    }

    /** The first byte not yet consumed. */
    ghost function Pos(): nat
      requires Valid()
      reads this
    {
      filePos - |buffer|
    }

    constructor (crc: Checksum, file: seq<byte>)
      ensures Valid() && Pos() == 0 && reports == 0 && this.crc == crc && this.file == file
    {
      this.crc, this.file := crc, file;
      filePos, buffer, eof, reports := 0, [], false, 0;
    }

    /** SequentialFile::Read of one block into the buffer. */
    method ReadBlock()
      requires Valid() && !eof
      modifies `filePos, `buffer, `eof
      ensures Valid() && filePos - |buffer| == old(filePos)
      ensures |buffer| == BLOCK_SIZE || eof
    {
      var n := if |file| - filePos < BLOCK_SIZE then |file| - filePos else BLOCK_SIZE;
      buffer := file[filePos..filePos + n];
      filePos := filePos + n;
      if |buffer| < BLOCK_SIZE {
        eof := true;
      }
    }

    lemma BufferEndsBlock(p: nat)
      requires Valid() && p == Pos()
      ensures !eof && buffer != [] ==> |buffer| == BLOCK_SIZE - p % BLOCK_SIZE
      ensures !eof && buffer == [] ==> p % BLOCK_SIZE == 0
      ensures buffer != [] ==> |buffer| <= BLOCK_SIZE - p % BLOCK_SIZE
    {
    }

    /** Make the next header available: skip a trailer, read the next block. */
    method FillBuffer(ghost pad: nat) returns (ok: bool)
      requires Valid() && (Pos() < |file| ==> pad == Pad(Pos()))
      modifies `filePos, `buffer, `eof
      ensures Valid()
      ensures ok ==> |buffer| >= HEADER_SIZE && old(Pos()) < |file| && Pos() == old(Pos()) + pad
      ensures !ok ==> old(Pos()) + pad + HEADER_SIZE > |file|
    {
      ghost var p := Pos();
      while |buffer| < HEADER_SIZE
        invariant Valid()
        invariant Pos() == p || (p < |file| && Pos() == p + pad && (|buffer| == BLOCK_SIZE || eof))
                             || (p == |file| && Pos() == p && eof)
        decreases if eof then 0 else 1 + |file| - filePos
      {
        BufferEndsBlock(Pos());
        if !eof {
          ReadBlock();
        } else {
          buffer := [];
          return false;
        }
      }
      BufferEndsBlock(Pos());
      ok := true;
    }

    /** Parse and check the header in the buffer, and consume the physical record. */
    method ParseRecord(ghost whole: seq<byte>, ghost p: nat, ghost f: Fragment) returns (code: nat, fragment: seq<byte>)
      requires Valid() && file <= whole && |buffer| >= HEADER_SIZE
      requires FragmentAt(crc, whole, p, f) && Pos() == p + f.pad
      modifies `buffer, `reports
      ensures Valid() && reports == old(reports)
      ensures p + f.Size() <= |file| ==> code == f.kind.Code() && fragment == f.payload && Pos() == p + f.Size()
      ensures p + f.Size() > |file| ==> code == EOF
    {
      BufferEndsBlock(Pos());
      ParseWritten(crc, whole, p, f, buffer, eof);
      var parsed := Parse(crc, buffer, eof);
      buffer := parsed.rest;
      reports := reports + parsed.reported;
      code, fragment := parsed.code, parsed.fragment;
    }

    /** `f` is the next fragment written, in the whole log of which the file is a prefix. */
    method ReadPhysicalRecord(ghost whole: seq<byte>, ghost f: Fragment) returns (code: nat, fragment: seq<byte>)
      requires Valid() && file <= whole
      requires Pos() == |file| || FragmentAt(crc, whole, Pos(), f)
      modifies this
      ensures Valid() && reports == old(reports)
      ensures old(Pos()) + f.Size() <= |file| ==>
                code == f.kind.Code() && fragment == f.payload && Pos() == old(Pos()) + f.Size()
      ensures old(Pos()) + f.Size() > |file| ==> code == EOF
    {
      ghost var p := Pos();
      var ok := FillBuffer(f.pad);
      if ok {
        code, fragment := ParseRecord(whole, p, f);
      } else {
        code, fragment := EOF, [];
      }
    }

    /** One round of ReadRecord. If `more`, `left` is the rest of the record written next;
        otherwise the file ends here. */
    method ReadFragment(ghost whole: seq<byte>, ghost at: Standing, ghost more: bool, ghost left: seq<byte>, ghost end: nat,
                        inFragmentedRecord: bool, scratch: seq<byte>)
      returns (step: Assembly)
      requires Valid() && file <= whole && CutsAlong(crc, whole, at, end)
      requires if more then at(Pos(), left, !inFragmentedRecord) else Pos() == |file|
      requires !inFragmentedRecord ==> scratch == []
      modifies this
      ensures Valid() && reports == old(reports) && step.reported == 0
      ensures var f := NextFragment(old(Pos()), left, !inFragmentedRecord);
              if !more || old(Pos()) + f.Size() > |file| then step.Ended? && (more ==> end > |file|)
              else if |f.payload| == |left| then step == Finished(scratch + left, 0) && Pos() == end <= |file|
              else step == Reading(true, scratch + f.payload, 0) && Pos() == old(Pos()) + f.Size()
                   && at(Pos(), left[|f.payload|..], false)
    {
      ghost var f := NextFragment(Pos(), left, !inFragmentedRecord);
      AssembleWritten(f, left, inFragmentedRecord, scratch);
      var code, fragment := ReadPhysicalRecord(whole, f);
      step := Assemble(code, fragment, inFragmentedRecord, scratch);
      reports := reports + step.reported;
    }

    method ReadRecord(ghost whole: seq<byte>, ghost at: Standing, ghost more: bool, ghost data: seq<byte>, ghost end: nat)
      returns (ok: bool, record: seq<byte>)
      requires Valid() && file <= whole && CutsAlong(crc, whole, at, end)
      requires if more then at(Pos(), data, true) else Pos() == |file|
      modifies this
      ensures Valid() && reports == old(reports)
      ensures ok <==> more && end <= |file|
      ensures ok ==> record == data && Pos() == end
    {
      var scratch: seq<byte> := [];
      var inFragmentedRecord := false;
      ghost var left := data;
      while true
        invariant Valid() && reports == old(reports) && (!inFragmentedRecord ==> scratch == [])
        invariant data == scratch + left
        invariant if more then at(Pos(), left, !inFragmentedRecord) else Pos() == |file|
        decreases |left|, Stuck(Pos())
      {
        ghost var f := NextFragment(Pos(), left, !inFragmentedRecord);
        FragmentProgress(Pos(), left, !inFragmentedRecord);
        var step := ReadFragment(whole, at, more, left, end, inFragmentedRecord, scratch);
        if step.Ended? {
          return false, [];
        } else if step.Finished? {
          return true, step.record;
        }
        scratch, inFragmentedRecord := step.scratch, step.inFragmentedRecord;
        left := left[|f.payload|..];
      }
    }
  }

  /** What ReadRecord does with one physical record: go on, return a record, or stop. */
  datatype Assembly =
    | Reading(inFragmentedRecord: bool, scratch: seq<byte>, reported: nat)
    | Finished(record: seq<byte>, reported: nat)
    | Ended(reported: nat)

  function Assemble(code: nat, fragment: seq<byte>, inFragmentedRecord: bool, scratch: seq<byte>): Assembly {
    // an earlier writer could leave an empty first fragment at the end of a block
    var unfinished: nat := if inFragmentedRecord && scratch != [] then 1 else 0;
    if code == Full.Code() as nat then Finished(fragment, unfinished)
    else if code == First.Code() as nat then Reading(true, fragment, unfinished)
    else if code == Middle.Code() as nat then
      if inFragmentedRecord then Reading(true, scratch + fragment, 0) else Reading(false, scratch, 1)
    else if code == Last.Code() as nat then
      if inFragmentedRecord then Finished(scratch + fragment, 0) else Reading(false, scratch, 1)
    else if code == EOF then Ended(0)
    else if code == BAD_RECORD then
      if inFragmentedRecord then Reading(false, [], 1) else Reading(false, scratch, 0)
    else Reading(false, [], 1)
  }

  /** A fragment that the writer cut is appended to those before it, and the last completes the record. */
  lemma AssembleWritten(f: Fragment, left: seq<byte>, inFragmentedRecord: bool, scratch: seq<byte>)
    requires f.payload <= left && f.kind == KindOf(!inFragmentedRecord, |f.payload| == |left|)
    requires !inFragmentedRecord ==> scratch == []
    ensures Assemble(f.kind.Code() as nat, f.payload, inFragmentedRecord, scratch)
         == if |f.payload| == |left| then Finished(scratch + left, 0) else Reading(true, scratch + f.payload, 0)
    ensures scratch + left == (scratch + f.payload) + left[|f.payload|..]
  {
  }

  /** The rest `data` of a record stands at position `p` of the log and ends at `end`. */
  ghost predicate PendingAt(crc: Checksum, whole: seq<byte>, p: nat, data: seq<byte>, begin: bool, end: nat) {
    BytesAt(whole, p, Pending(crc, p, data, begin)) && end == p + |Pending(crc, p, data, begin)|
  }

  /** Where the rest of a record stands: position, rest, and whether it is the whole record. */
  type Standing = (nat, seq<byte>, bool) -> bool

  /** Wherever a rest stands, its next fragment has been written, and what is left stands behind it,
      up to `end`. */
  ghost predicate CutsAlong(crc: Checksum, whole: seq<byte>, at: Standing, end: nat) {
    forall p: nat, data: seq<byte>, begin :: at(p, data, begin) ==>
      var f := NextFragment(p, data, begin);
      && FragmentAt(crc, whole, p, f) && p + f.Size() <= end
      && if |f.payload| < |data| then at(p + f.Size(), data[|f.payload|..], false) && p + f.Size() < end
         else end == p + f.Size()
  }

  ghost function PendingUpTo(crc: Checksum, whole: seq<byte>, end: nat): Standing {
    (p: nat, data: seq<byte>, begin: bool) => PendingAt(crc, whole, p, data, begin, end)
  }

  lemma PendingCutsAlong(crc: Checksum, whole: seq<byte>, end: nat)
    ensures CutsAlong(crc, whole, PendingUpTo(crc, whole, end), end)
  {
    var at := PendingUpTo(crc, whole, end);
    forall p: nat, data: seq<byte>, begin | at(p, data, begin)
      ensures var f := NextFragment(p, data, begin);
        && FragmentAt(crc, whole, p, f) && p + f.Size() <= end
        && if |f.payload| < |data| then at(p + f.Size(), data[|f.payload|..], false) && p + f.Size() < end
           else end == p + f.Size()
    {
      FirstFragmentAt(crc, whole, p, data, begin, end);
    }
  }

  lemma FirstFragmentAt(crc: Checksum, whole: seq<byte>, p: nat, data: seq<byte>, begin: bool, end: nat)
    requires PendingAt(crc, whole, p, data, begin, end)
    ensures var f := NextFragment(p, data, begin);
      && FragmentAt(crc, whole, p, f) && p + f.Size() <= end
      && if |f.payload| < |data|
         then PendingAt(crc, whole, p + f.Size(), data[|f.payload|..], false, end) && p + f.Size() < end
         else end == p + f.Size()
  {
    var f := NextFragment(p, data, begin);
    var all := Pending(crc, p, data, begin);
    var fb := FragmentBytes(crc, f);
    assert whole[p..p + f.Size()] == all[..f.Size()] == fb;
    if |f.payload| < |data| {
      var rest := Pending(crc, p + f.Size(), data[|f.payload|..], false);
      assert all == fb + rest;
      assert all[f.Size()..] == rest;
      assert whole[p + f.Size()..p + f.Size() + |rest|] == all[f.Size()..];
      var g := NextFragment(p + f.Size(), data[|f.payload|..], false);
      assert |rest| >= g.Size();
    }
  }

  // ---- A whole log

  /** Where record `k` starts. */
  function Start(encode: Encoder, records: seq<seq<byte>>, k: nat): nat
    requires k <= |records|
  {
    |Written(encode, records[..k])|
  }

  lemma WrittenNext(encode: Encoder, records: seq<seq<byte>>, k: nat)
    requires k < |records|
    ensures Written(encode, records[..k + 1])
         == Written(encode, records[..k]) + encode(Start(encode, records, k), records[k])
  {
    assert records[..k + 1][..k] == records[..k];
  }

  lemma {:induction false} WrittenPrefix(encode: Encoder, records: seq<seq<byte>>, a: nat, b: nat)
    requires a <= b <= |records|
    ensures Written(encode, records[..a]) <= Written(encode, records[..b])
    decreases b
  {
    if a < b {
      WrittenPrefix(encode, records, a, b - 1);
      WrittenNext(encode, records, b - 1);
    }
  }

  /** Record `k` stands between its start and the next one's. */
  lemma RecordAt(encode: Encoder, records: seq<seq<byte>>, k: nat)
    requires k < |records|
    ensures var p := Start(encode, records, k);
      && Start(encode, records, k + 1) == p + |encode(p, records[k])|
      && BytesAt(Written(encode, records), p, encode(p, records[k]))
  {
    WrittenNext(encode, records, k);
    WrittenPrefix(encode, records, k + 1, |records|);
    assert records[..|records|] == records;
    EndsWithin(Written(encode, records[..k]), encode(Start(encode, records, k), records[k]), Written(encode, records));
  }

  lemma EndsWithin(before: seq<byte>, bytes: seq<byte>, whole: seq<byte>)
    requires before + bytes <= whole
    ensures BytesAt(whole, |before|, bytes)
  {
    assert whole[|before|..|before| + |bytes|] == (before + bytes)[|before|..];
  }

  /** The first `k` records are those that lie wholly inside the first `n` bytes of the log. */
  ghost predicate WhollyInside(encode: Encoder, records: seq<seq<byte>>, n: nat, k: nat) {
    && k <= |records| && Start(encode, records, k) <= n
    && (k < |records| ==> Start(encode, records, k + 1) > n)
  }

  /** What `encode` appends is cut into fragments that the reader can follow. */
  ghost predicate Readable(crc: Checksum, encode: Encoder, whole: seq<byte>, at: nat -> Standing) {
    && (forall end: nat :: CutsAlong(crc, whole, at(end), end))
    && (forall p: nat, data: seq<byte> :: BytesAt(whole, p, encode(p, data)) ==>
          at(p + |encode(p, data)|)(p, data, true))
  }

  lemma AddRecordIsReadable(crc: Checksum, whole: seq<byte>)
    ensures Readable(crc, AddRecordEncoder(crc), whole, (end: nat) => PendingUpTo(crc, whole, end))
  {
    forall end: nat
      ensures CutsAlong(crc, whole, PendingUpTo(crc, whole, end), end)
    {
      PendingCutsAlong(crc, whole, end);
    }
  }

  /** Reading record `k` of a log, or finding that it does not lie wholly inside the file. */
  method ReadNext(reader: Reader, ghost encode: Encoder, ghost records: seq<seq<byte>>, ghost at: nat -> Standing, ghost k: nat)
    returns (ok: bool, record: seq<byte>)
    requires reader.Valid() && reader.file <= Written(encode, records)
    requires Readable(reader.crc, encode, Written(encode, records), at)
    requires k <= |records| && reader.Pos() == Start(encode, records, k)
    modifies reader
    ensures reader.Valid() && reader.reports == old(reader.reports)
    ensures ok <==> k < |records| && Start(encode, records, k + 1) <= |reader.file|
    ensures ok ==> record == records[k] && reader.Pos() == Start(encode, records, k + 1)
  {
    ghost var more := k < |records|;
    ghost var end := if more then Start(encode, records, k + 1) else 0;
    if more {
      RecordAt(encode, records, k);
    } else {
      assert records[..k] == records;
    }
    ok, record := reader.ReadRecord(Written(encode, records), at(end), more, if more then records[k] else [], end);
  }

  lemma PrefixNext<T>(out: seq<T>, s: seq<T>)
    requires out <= s && |out| < |s|
    ensures out + [s[|out|]] <= s
  {
  }

  method ReadRecords(crc: Checksum, file: seq<byte>, ghost encode: Encoder, ghost records: seq<seq<byte>>, ghost at: nat -> Standing)
    returns (out: seq<seq<byte>>, reports: nat)
    requires file <= Written(encode, records) && Readable(crc, encode, Written(encode, records), at)
    ensures reports == 0 && out <= records && WhollyInside(encode, records, |file|, |out|)
  {
    var reader := new Reader(crc, file);
    out := [];
    var ok := true;
    while ok
      invariant fresh(reader) && reader.Valid() && reader.reports == 0 && reader.file == file && reader.crc == crc
      invariant out <= records
      invariant ok ==> reader.Pos() == Start(encode, records, |out|)
      invariant Start(encode, records, |out|) <= |file|
      invariant !ok ==> WhollyInside(encode, records, |file|, |out|)
      decreases ok, |records| - |out|
    {
      var record;
      ok, record := ReadNext(reader, encode, records, at, |out|);
      if ok {
        PrefixNext(out, records);
        out := out + [record];
      }
    }
    reports := reader.reports;
  }

  /** Reading any prefix of what the writer wrote gives back exactly the records that lie
      wholly inside it, in order, and reports no corruption. */
  method ReadAll(crc: Checksum, file: seq<byte>, ghost records: seq<seq<byte>>)
    returns (out: seq<seq<byte>>, reports: nat)
    requires file <= LogBytes(crc, records)
    ensures reports == 0 && out <= records
    ensures WhollyInside(AddRecordEncoder(crc), records, |file|, |out|)
  {
    ghost var whole := LogBytes(crc, records);
    AddRecordIsReadable(crc, whole);
    out, reports := ReadRecords(crc, file, AddRecordEncoder(crc), records, (end: nat) => PendingUpTo(crc, whole, end));
  }

  /** How many records that is depends on the length of the prefix alone. */
  lemma WhollyInsideIsUnique(encode: Encoder, records: seq<seq<byte>>, n: nat, j: nat, k: nat)
    requires WhollyInside(encode, records, n, j) && WhollyInside(encode, records, n, k)
    ensures j == k
  {
    if j < |records| && j + 1 <= k {
      WrittenPrefix(encode, records, j + 1, k);
    }
    if k < |records| && k + 1 <= j {
      WrittenPrefix(encode, records, k + 1, j);
    }
  }

  /** A list of records appended to an empty log. */
  method WriteAll(crc: Checksum, records: seq<seq<byte>>) returns (log: seq<byte>)
    ensures log == LogBytes(crc, records)
  {
    var writer := new Writer(crc);
    for i := 0 to |records|
      invariant fresh(writer) && writer.Valid() && writer.crc == crc
      invariant writer.dest == Written(AddRecordEncoder(crc), records[..i])
    {
      WrittenNext(AddRecordEncoder(crc), records, i);
      writer.AddRecord(records[i]);
    }
    assert records[..|records|] == records;
    log := writer.dest;
  }
}

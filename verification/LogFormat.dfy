/** The log format: records cut into fragments that never cross a block (db/log_format.h,
    db/log_writer.cc). */
module LogFormat {
  import opened Bytes

  const BLOCK_SIZE: nat := 32768
  const HEADER_SIZE: nat := 7

  datatype RecordType = Full | First | Middle | Last {
    function Code(): byte {
      match this
      case Full => 1
      case First => 2
      case Middle => 3
      case Last => 4
    }
  }

  /** One physical record, with the padding that the writer puts before it. */
  datatype Fragment = Fragment(pad: nat, kind: RecordType, payload: seq<byte>) {
    function Size(): nat { pad + HEADER_SIZE + |payload| }
  }

  /** Padding at file position `p`: the rest of the block, if it cannot hold a header. */
  function Pad(p: nat): nat {
    if BLOCK_SIZE - p % BLOCK_SIZE < HEADER_SIZE then BLOCK_SIZE - p % BLOCK_SIZE else 0
  }

  /** Payload bytes that fit into the block of the header written at or after `p`. */
  function Avail(p: nat): nat {
    BLOCK_SIZE - (p + Pad(p)) % BLOCK_SIZE - HEADER_SIZE
  }

  lemma AvailFits(p: nat)
    ensures (p + Pad(p)) % BLOCK_SIZE + HEADER_SIZE <= BLOCK_SIZE
    ensures Avail(p) == 0 ==> Avail(p + Pad(p) + HEADER_SIZE) == BLOCK_SIZE - HEADER_SIZE
  {
  }

  /** 1 if the block at `p` has room for a header alone. */
  function Stuck(p: nat): nat {
    if Avail(p) == 0 then 1 else 0
  }

  lemma SameOffset(a: nat, b: nat, n: nat)
    requires a % BLOCK_SIZE == b % BLOCK_SIZE
    ensures (a + n) % BLOCK_SIZE == (b + n) % BLOCK_SIZE
  {
  }

  /** The writer's offset in the block tells where the next header goes. */
  lemma OffsetTellsPad(offset: nat, p: nat)
    requires offset <= BLOCK_SIZE && offset % BLOCK_SIZE == p % BLOCK_SIZE
    ensures BLOCK_SIZE - offset < HEADER_SIZE ==>
              Pad(p) == (BLOCK_SIZE - offset) % BLOCK_SIZE && (p + Pad(p)) % BLOCK_SIZE == 0
    ensures BLOCK_SIZE - offset >= HEADER_SIZE ==> Pad(p) == 0 && p % BLOCK_SIZE == offset
    ensures BLOCK_SIZE - offset < HEADER_SIZE ==> Pad(p) == BLOCK_SIZE - offset
    ensures Avail(p) == BLOCK_SIZE - (if BLOCK_SIZE - offset < HEADER_SIZE then 0 else offset) - HEADER_SIZE
  {
  }

  function KindOf(begin: bool, end: bool): RecordType {
    if begin && end then Full else if begin then First else if end then Last else Middle
  }

  function NextFragment(p: nat, data: seq<byte>, begin: bool): (f: Fragment)
    ensures |f.payload| <= |data| && f.payload == data[..|f.payload|] && |f.payload| < BLOCK_SIZE
  {
    var length := if |data| < Avail(p) then |data| else Avail(p);
    Fragment(Pad(p), KindOf(begin, length == |data|), data[..length])
  }

  /** EmitPhysicalRecord: masked checksum of type and payload, length, type, payload. */
  function FragmentBytes(crc: Checksum, f: Fragment): (r: seq<byte>)
    requires |f.payload| < BLOCK_SIZE
    ensures |r| == f.Size()
  {
    Zeros(f.pad) + EncodeFixed32(Mask(crc([f.kind.Code()] + f.payload)))
      + [|f.payload| % 0x100, |f.payload| / 0x100, f.kind.Code()] + f.payload
  }

  /** A fragment takes some of the record, unless the block has room for a header alone. */
  lemma FragmentProgress(p: nat, data: seq<byte>, begin: bool)
    ensures var f := NextFragment(p, data, begin);
            |f.payload| < |data| ==> |f.payload| > 0 || Stuck(p + f.Size()) < Stuck(p)
  {
    AvailFits(p);
  }

  /** Fragments stay within blocks of 32768 bytes. One that does not end its record ends a block, and only the
      last six bytes of a block are ever padding. */
  lemma FragmentFillsItsBlock(p: nat, data: seq<byte>, begin: bool)
    ensures var f := NextFragment(p, data, begin); var at := p + f.pad;
      && at % 32768 + 7 + |f.payload| <= 32768
      && (|f.payload| < |data| ==> at % 32768 + 7 + |f.payload| == 32768)
      && f.pad <= 6 && (f.pad > 0 ==> at % 32768 == 0)
      && f.kind.Code() == if begin then (if |f.payload| == |data| then 1 else 2) else if |f.payload| == |data| then 4 else 3
  {
    AvailFits(p);
  }

  /** A short record at the start of a log. */
  lemma BytesOfRecord(crc: Checksum)
    ensures RecordBytes(crc, 0, [104, 105]) == EncodeFixed32(Mask(crc([1, 104, 105]))) + [2, 0, 1, 104, 105]
  {
    var data := [104, 105];
    assert NextFragment(0, data, true) == Fragment(0, Full, data);
    assert Zeros(0) == [] && [1] + data == [1, 104, 105];
  }

  /** What is written at position `p` for the rest of a record. */
  function Pending(crc: Checksum, p: nat, data: seq<byte>, begin: bool): seq<byte>
    decreases |data|, Stuck(p)
  {
    var f := NextFragment(p, data, begin);
    FragmentProgress(p, data, begin);
    FragmentBytes(crc, f)
      + if |f.payload| == |data| then [] else Pending(crc, p + f.Size(), data[|f.payload|..], false)
  }

  /** What AddRecord appends at position `p`. */
  function RecordBytes(crc: Checksum, p: nat, data: seq<byte>): seq<byte> {
    Pending(crc, p, data, true)
  }

  /** What the writer appends for one record, as a function of the position and the record. */
  type Encoder = (nat, seq<byte>) -> seq<byte>

  function AddRecordEncoder(crc: Checksum): Encoder {
    (p, data) => RecordBytes(crc, p, data)
  }

  /** Everything written for a list of records, one after the other. */
  function Written(encode: Encoder, records: seq<seq<byte>>): seq<byte> {
    if records == [] then []
    else
      var before := Written(encode, records[..|records| - 1]);
      before + encode(|before|, records[|records| - 1])
  }

  function LogBytes(crc: Checksum, records: seq<seq<byte>>): seq<byte> {
    Written(AddRecordEncoder(crc), records)
  }

  /** log::Writer. Appends that fail are not modelled. */
  class Writer {
    const crc: Checksum
    var dest: seq<byte>
    var blockOffset: nat

    ghost predicate Valid()
      reads this
    {
      blockOffset <= BLOCK_SIZE && blockOffset % BLOCK_SIZE == |dest| % BLOCK_SIZE
    }

    constructor (crc: Checksum)
      ensures Valid() && dest == [] && this.crc == crc
    {
      this.crc, dest, blockOffset := crc, [], 0;
    }

    method AddRecord(data: seq<byte>)
      requires Valid()
      modifies this
      ensures Valid() && dest == old(dest) + RecordBytes(crc, |old(dest)|, data)
    {
      ghost var pending: (nat, seq<byte>, bool) -> seq<byte> := (p: nat, rest: seq<byte>, begin: bool) => Pending(crc, p, rest, begin);
      AddFragments(data, pending);
    }

    /** The loop of AddRecord. `pending` tells what is still to be written. */
    method AddFragments(data: seq<byte>, ghost pending: (nat, seq<byte>, bool) -> seq<byte>)
      requires Valid()
      requires forall p: nat, rest: seq<byte>, begin ::
        var f := NextFragment(p, rest, begin);
        pending(p, rest, begin) == FragmentBytes(crc, f)
          + if |f.payload| == |rest| then [] else pending(p + f.Size(), rest[|f.payload|..], false)
      modifies this
      ensures Valid() && dest == old(dest) + pending(|old(dest)|, data, true)
    {
      var left := data;
      var begin := true;
      var again := true;
      ghost var p: nat := |dest|;
      ghost var whole := dest + pending(p, data, true);
      while again
        invariant Valid() && p == |dest|
        invariant whole == dest + if again then pending(p, left, begin) else []
        decreases again, |left|, Stuck(p)
      {
        ghost var f, before := NextFragment(p, left, begin), dest;
        FragmentProgress(p, left, begin);
        var length := WriteFragment(left, begin);
        ghost var rest := if length == |left| then [] else pending(p + f.Size(), left[length..], false);
        assert whole == before + (FragmentBytes(crc, f) + rest);
        assert whole == dest + rest;
        again := length < |left|;
        left := left[length..];
        begin := false;
        p := p + f.Size();
      }
    }

    /** One round of the loop: fill the block if it cannot hold a header, then emit as much of
        the record as fits. */
    method WriteFragment(left: seq<byte>, begin: bool) returns (length: nat)
      requires Valid()
      modifies this
      ensures Valid() && length == |NextFragment(|old(dest)|, left, begin).payload| < BLOCK_SIZE
      ensures dest == old(dest) + FragmentBytes(crc, NextFragment(|old(dest)|, left, begin))
    {
      OffsetTellsPad(blockOffset, |dest|);
      var leftover := BLOCK_SIZE - blockOffset;
      ghost var f := NextFragment(|dest|, left, begin);
      if leftover < HEADER_SIZE {
        dest := dest + Zeros(leftover);
        blockOffset := 0;
      }
      assert dest == old(dest) + Zeros(f.pad);
      var avail := BLOCK_SIZE - blockOffset - HEADER_SIZE;
      length := if |left| < avail then |left| else avail;
      EmitPhysicalRecord(KindOf(begin, length == |left|), left[..length]);
      assert FragmentBytes(crc, f) == Zeros(f.pad) + FragmentBytes(crc, f.(pad := 0));
    }

    method EmitPhysicalRecord(kind: RecordType, payload: seq<byte>)
      requires blockOffset + HEADER_SIZE + |payload| <= BLOCK_SIZE && blockOffset % BLOCK_SIZE == |dest| % BLOCK_SIZE
      modifies this
      ensures Valid() && dest == old(dest) + FragmentBytes(crc, Fragment(0, kind, payload))
    {
      var header := EncodeFixed32(Mask(crc([kind.Code()] + payload)))
                      + [|payload| % 0x100, |payload| / 0x100, kind.Code()];
      assert FragmentBytes(crc, Fragment(0, kind, payload)) == header + payload;
      dest := dest + header;
      dest := dest + payload;
      SameOffset(blockOffset, |old(dest)|, HEADER_SIZE + |payload|);
      blockOffset := blockOffset + HEADER_SIZE + |payload|;
    }
  }
}

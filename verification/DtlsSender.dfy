/** Sending a DTLS flight: messages are cut into fragments that fit the MTU, and a packet that
    could not be written is sealed again (ssl/d1_both.cc; section 4.2.3 of RFC 6347). Sealing a
    record is taken to add at most the overhead of its epoch. */
module DtlsSender {
  import opened Bytes
  import opened DbFormat
  import opened DtlsReceiver

  const HM_HEADER_LENGTH: nat := 12

  /** A message of the flight, or a ChangeCipherSpec. */
  datatype Outgoing = Ccs(epoch: nat) | Handshake(epoch: nat, kind: byte, number: nat, body: seq<byte>)

  /** What one sealed record carries. */
  datatype Record = CcsRecord | Piece(fragment: Fragment)

  /** How far the flight has been sealed: whole messages, and bytes of the next one. */
  datatype Position = Position(written: nat, offset: nat)

  datatype SealResult = NoProgress | Partial | Success

  /** The record that comes next at `p`, carrying `n` body bytes. */
  ghost predicate IsNext(flight: seq<Outgoing>, p: Position, r: Record) {
    && p.written < |flight|
    && match flight[p.written]
       case Ccs(_) => r == CcsRecord && p.offset == 0
       case Handshake(_, kind, number, body) =>
         && r.Piece? && p.offset <= |body|
         && var f := r.fragment;
            && f.kind == kind && f.number == number && f.msgLen == |body| && f.off == p.offset
            && f.off + |f.body| <= |body| && f.body == body[f.off..f.off + |f.body|]
            && (f.body == [] ==> body == [])
  }

  function After(flight: seq<Outgoing>, p: Position, r: Record): Position
    requires p.written < |flight|
  {
    if flight[p.written].Ccs? || r.CcsRecord? || r.fragment.off + |r.fragment.body| == |flight[p.written].body|
    then Position(p.written + 1, 0)
    else Position(p.written, r.fragment.off + |r.fragment.body|)
  }

  /** Where the records lead from `from`, if each is the next one where it stands. */
  ghost function EndOf(flight: seq<Outgoing>, from: Position, records: seq<Record>): Option<Position> {
    if records == [] then Some(from)
    else
      var n := |records| - 1;
      match EndOf(flight, from, records[..n])
      case None => None
      case Some(p) => if IsNext(flight, p, records[n]) then Some(After(flight, p, records[n])) else None
  }

  /** The records cut the flight from `from` to `to` without gap or overlap. */
  ghost predicate Tiles(flight: seq<Outgoing>, from: Position, records: seq<Record>, to: Position) {
    EndOf(flight, from, records) == Some(to)
  }

  lemma TilesMore(flight: seq<Outgoing>, from: Position, records: seq<Record>, p: Position, r: Record)
    requires Tiles(flight, from, records, p) && IsNext(flight, p, r)
    ensures Tiles(flight, from, records + [r], After(flight, p, r))
  {
    assert (records + [r])[..|records|] == records;
  }

  lemma {:induction false} TilesJoin(flight: seq<Outgoing>, from: Position, a: seq<Record>, mid: Position, b: seq<Record>, to: Position)
    requires Tiles(flight, from, a, mid) && Tiles(flight, mid, b, to)
    ensures Tiles(flight, from, a + b, to)
  {
    if b == [] {
      assert a + b == a;
    } else {
      var n := |b| - 1;
      var p := EndOf(flight, mid, b[..n]).value;
      TilesJoin(flight, from, a, mid, b[..n], p);
      assert (a + b)[..|a + b| - 1] == a + b[..n];
      assert (a + b)[|a + b| - 1] == b[n];
    }
  }

  /** The position points into the flight. */
  ghost predicate InFlight(flight: seq<Outgoing>, p: Position) {
    && p.written <= |flight|
    && (p.offset > 0 ==> p.written < |flight| && flight[p.written].Handshake? && p.offset < |flight[p.written].body|)
  }

  /** The body bytes of a message that are still to be sealed. */
  function Rest(m: Outgoing, offset: nat): seq<byte> {
    if m.Ccs? || offset > |m.body| then [] else m.body[offset..]
  }

  /** At most this many records are to be sealed from message `m` on. */
  function Units(flight: seq<Outgoing>, m: nat): nat
    requires m <= |flight|
    decreases |flight| - m
  {
    if m == |flight| then 0 else 1 + |Rest(flight[m], 0)| + Units(flight, m + 1)
  }

  function Left(flight: seq<Outgoing>, p: Position): int
    requires p.written <= |flight|
  {
    Units(flight, p.written) - p.offset
  }

  class Sender {
    const flight: seq<Outgoing>
    const overhead: nat -> nat         // the most that sealing adds, by epoch
    const seal: (nat, nat) -> nat      // the size of a sealed record, by epoch and plaintext size
    var written: nat
    var offset: nat

    ghost predicate Valid()
      reads this
    {
      InFlight(flight, Pos()) && forall e: nat, n: nat :: seal(e, n) <= n + overhead(e)
    }

    function Pos(): Position
      reads this
    {
      Position(written, offset)
    }

    constructor (flight: seq<Outgoing>, overhead: nat -> nat, seal: (nat, nat) -> nat)
      requires forall e: nat, n: nat :: seal(e, n) <= n + overhead(e)
      ensures Valid() && Pos() == Position(0, 0) && this.flight == flight && this.overhead == overhead && this.seal == seal
    {
      this.flight, this.overhead, this.seal, written, offset := flight, overhead, seal, 0, 0;
    }

    /** seal_next_message: seal as much of the next message as fits. The caller counts the message
        as written when it is complete. */
    method SealNextMessage(maxOut: nat) returns (ret: SealResult, len: nat, record: Record)
      requires Valid() && written < |flight|
      modifies `offset
      ensures written == old(written)
      ensures ret.NoProgress? <==> maxOut < Smallest(flight[written])
      ensures ret.NoProgress? ==> offset == old(offset)
      ensures !ret.NoProgress? ==> len <= maxOut && IsNext(flight, old(Pos()), record)
      ensures ret.Partial? ==> After(flight, old(Pos()), record) == Pos() && InFlight(flight, Pos())
      ensures ret.Success? ==> After(flight, old(Pos()), record) == Position(written + 1, 0) && offset == 0
      ensures ret.Success? <==> !ret.NoProgress? && |Rest(flight[written], old(offset))| <= Room(flight[written], maxOut)
      ensures ret.Partial? ==> |record.fragment.body| == Room(flight[written], maxOut) > 0
    {
      var msg := flight[written];
      var over := overhead(msg.epoch);
      record, len := CcsRecord, 0;
      match msg
      case Ccs(epoch) =>
        if maxOut < 1 + over {
          return NoProgress, len, record;
        }
        len := seal(epoch, 1);
        return Success, len, record;
      case Handshake(epoch, kind, number, body) =>
        if maxOut < HM_HEADER_LENGTH + 1 + over {
          return NoProgress, len, record;
        }
        var todo := |body| - offset;
        if todo > maxOut - HM_HEADER_LENGTH - over {
          todo := maxOut - HM_HEADER_LENGTH - over;
        }
        record := Piece(Fragment(kind, number, |body|, offset, body[offset..offset + todo]));
        len := seal(epoch, HM_HEADER_LENGTH + todo);
        if todo == |body| - offset {
          offset := 0;
          return Success, len, record;
        }
        offset := offset + todo;
        return Partial, len, record;
    }

    /** How many body bytes fit into `maxOut` bytes at most. */
    function Room(m: Outgoing, maxOut: nat): int {
      maxOut - overhead(m.epoch) - if m.Ccs? then 1 else HM_HEADER_LENGTH
    }

    /** The room that any progress on a message needs. */
    function Smallest(m: Outgoing): nat {
      if m.Ccs? then 1 + overhead(m.epoch) else HM_HEADER_LENGTH + 1 + overhead(m.epoch)
    }

    /** seal_next_packet. */
    method SealNextPacket(mtu: nat) returns (ok: bool, total: nat, ghost records: seq<Record>)
      requires Valid() && written < |flight|
      modifies `written, `offset
      ensures Valid() && total <= mtu && Tiles(flight, old(Pos()), records, Pos())
      ensures ok <==> records != []
      ensures ok <==> mtu >= Smallest(flight[old(written)])
      ensures ok ==> written == |flight| || offset > 0 || mtu - total < Smallest(flight[written])
      ensures Left(flight, Pos()) + |records| <= Left(flight, old(Pos()))
    {
      total, records := 0, [];
      var madeProgress, full := false, false;
      ghost var start, need := Pos(), Smallest(flight[written]);
      while written < |flight| && !full
        invariant Valid() && total <= mtu && Tiles(flight, start, records, Pos())
        invariant madeProgress <==> records != []
        invariant !madeProgress ==> total == 0 && Pos() == start && (full ==> mtu < need)
        invariant madeProgress ==> mtu >= need
        invariant Left(flight, Pos()) + |records| <= Left(flight, start)
        invariant full ==> written < |flight| && (offset > 0 || mtu - total < Smallest(flight[written]))
        decreases |flight| - written, !full
      {
        ghost var p := Pos();
        var ret, len, record := SealNextMessage(mtu - total);
        match ret
        case NoProgress =>
          full := true;
        case Partial =>
          TilesMore(flight, start, records, p, record);
          total, records, madeProgress, full := total + len, records + [record], true, true;
        case Success =>
          TilesMore(flight, start, records, p, record);
          total, records, madeProgress := total + len, records + [record], true;
          written := written + 1;
      }
      ok := madeProgress;
    }

    /** The MTU has room for progress on every message. */
    ghost predicate EnoughFor(mtu: nat) {
      forall m :: m in flight ==> mtu >= Smallest(m)
    }

    /** send_flight, with the outcome of each write to the transport; it is blocked when the list ends.
        A packet that is not written is forgotten and sealed again later. `sent` are the records of
        the `n` packets written. */
    method SendFlight(mtu: nat, writes: seq<bool>) returns (result: int, ghost sent: seq<Record>, n: nat)
      requires Valid()
      modifies `written, `offset
      ensures Valid() && Tiles(flight, old(Pos()), sent, Pos())
      ensures result == 1 || result == 0 || result == -1
      ensures result == 1 ==> Pos() == Position(|flight|, 0)
      ensures result == -1 ==> written < |flight| && mtu < Smallest(flight[written])
      ensures result == 0 ==> written < |flight|
      ensures n <= |writes| && n <= |sent| && forall j :: 0 <= j < n ==> writes[j]
      ensures result == 0 ==> n == |writes| || !writes[n]
      ensures EnoughFor(mtu) && (forall j :: 0 <= j < |writes| ==> writes[j]) && |writes| >= Left(flight, old(Pos())) ==> result == 1
    {
      sent := [];
      var i := 0;
      ghost var start := Pos();
      while written < |flight|
        invariant Valid() && Tiles(flight, start, sent, Pos()) && i <= |writes|
        invariant (forall j :: 0 <= j < i ==> writes[j]) && i <= |sent| && Left(flight, Pos()) + i <= Left(flight, start)
        decreases |writes| - i
      {
        var oldWritten, oldOffset := written, offset;
        ghost var p := Pos();
        var ok, packetLen, records := SealNextPacket(mtu);
        if !ok {
          return -1, sent, i;
        }
        if i == |writes| || !writes[i] {
          written, offset := oldWritten, oldOffset;
          return 0, sent, i;
        }
        TilesJoin(flight, start, sent, p, records, Pos());
        sent := sent + records;
        i := i + 1;
      }
      return 1, sent, i;
    }

    /** dtls1_retransmit_outgoing_messages: the whole flight once more. */
    method Retransmit(mtu: nat, writes: seq<bool>) returns (result: int, ghost sent: seq<Record>, n: nat)
      requires Valid()
      modifies `written, `offset
      ensures Valid() && Tiles(flight, Position(0, 0), sent, Pos())
      ensures result == 1 ==> Pos() == Position(|flight|, 0)
      ensures n <= |writes| && (result == 0 ==> n == |writes| || !writes[n])
      ensures EnoughFor(mtu) && (forall j :: 0 <= j < |writes| ==> writes[j]) && |writes| >= Units(flight, 0) ==> result == 1
    {
      written, offset := 0, 0;
      result, sent, n := SendFlight(mtu, writes);
    }
  }

  // ---- What a tiling covers

  ghost predicate Before(p: Position, q: Position) {
    p.written < q.written || (p.written == q.written && p.offset <= q.offset)
  }

  /** Byte `i` of message `m` is carried by one of the records. */
  ghost predicate Carries(flight: seq<Outgoing>, records: seq<Record>, m: nat, i: nat)
    requires m < |flight| && flight[m].Handshake?
  {
    exists r: Record :: r in records && r.Piece? && r.fragment.number == flight[m].number && r.fragment.Covers(i)
  }

  lemma CarriesMore(flight: seq<Outgoing>, records: seq<Record>, r: Record, m: nat, i: nat)
    requires m < |flight| && flight[m].Handshake?
    requires Carries(flight, records, m, i) || (r.Piece? && r.fragment.number == flight[m].number && r.fragment.Covers(i))
    ensures Carries(flight, records + [r], m, i)
  {
    if Carries(flight, records, m, i) {
      var x: Record :| x in records && x.Piece? && x.fragment.number == flight[m].number && x.fragment.Covers(i);
      assert x in records + [r];
    } else {
      assert r in records + [r];
    }
  }

  /** A tiling from the start carries every byte before its end. */
  lemma {:induction false} TilingCarries(flight: seq<Outgoing>, records: seq<Record>, to: Position, m: nat, i: nat)
    requires Tiles(flight, Position(0, 0), records, to) && m < |flight| && flight[m].Handshake? && i < |flight[m].body|
    requires m < to.written || (m == to.written && i < to.offset)
    ensures Carries(flight, records, m, i)
  {
    var n := |records| - 1;
    var p := EndOf(flight, Position(0, 0), records[..n]).value;
    if m < p.written || (m == p.written && i < p.offset) {
      TilingCarries(flight, records[..n], p, m, i);
    }
    assert records == records[..n] + [records[n]];
    CarriesMore(flight, records[..n], records[n], m, i);
  }

  /** A tiling has a record for every message before its end, also for an empty one. */
  lemma {:induction false} TilingBegins(flight: seq<Outgoing>, records: seq<Record>, to: Position, m: nat) returns (r: Record)
    requires Tiles(flight, Position(0, 0), records, to) && m < to.written && m < |flight| && flight[m].Handshake?
    ensures r in records && r.Piece? && r.fragment.number == flight[m].number
  {
    var n := |records| - 1;
    var p := EndOf(flight, Position(0, 0), records[..n]).value;
    if m < p.written {
      r := TilingBegins(flight, records[..n], p, m);
    } else {
      r := records[n];
    }
  }

  /** The message of each number. */
  ghost predicate NumbersMessages(flight: seq<Outgoing>, messages: nat -> Message) {
    forall m :: 0 <= m < |flight| && flight[m].Handshake? ==> messages(flight[m].number) == Message(flight[m].kind, flight[m].body)
  }

  lemma {:induction false} TilingIsCut(flight: seq<Outgoing>, from: Position, records: seq<Record>, to: Position, messages: nat -> Message, r: Record)
    requires Tiles(flight, from, records, to) && NumbersMessages(flight, messages) && r in records && r.Piece?
    ensures CutFrom(r.fragment, messages)
  {
    var n := |records| - 1;
    var p := EndOf(flight, from, records[..n]).value;
    if r in records[..n] {
      TilingIsCut(flight, from, records[..n], p, messages, r);
    }
  }

  /** Fragmentation and reassembly undo each other: when all records of a flight that was sent have
      been accepted, in any order and any number of times, each message of it can be delivered, and
      what is delivered is what was sent. */
  lemma FlightArrives(flight: seq<Outgoing>, records: seq<Record>, messages: nat -> Message, accepted: seq<Fragment>, m: nat)
    requires Tiles(flight, Position(0, 0), records, Position(|flight|, 0)) && NumbersMessages(flight, messages)
    requires m < |flight| && flight[m].Handshake?
    requires forall f :: f in accepted && f.number == flight[m].number ==> Piece(f) in records
    requires forall f :: Piece(f) in records && f.number == flight[m].number ==> f in accepted
    ensures Assembled(accepted, flight[m].number)
    ensures forall x: Message :: MadeOf(accepted, flight[m].number, x) ==> x == Message(flight[m].kind, flight[m].body)
  {
    var number := flight[m].number;
    forall f | f in accepted && f.number == number
      ensures CutFrom(f, messages)
    {
      TilingIsCut(flight, Position(0, 0), records, Position(|flight|, 0), messages, Piece(f));
    }
    forall i: nat | i < |flight[m].body|
      ensures Covered(accepted, number, i)
    {
      TilingCarries(flight, records, Position(|flight|, 0), m, i);
      var r: Record :| r in records && r.Piece? && r.fragment.number == number && r.fragment.Covers(i);
      assert Piece(r.fragment) == r;
    }
    var r := TilingBegins(flight, records, Position(|flight|, 0), m);
    assert Piece(r.fragment) == r && Begun(accepted, number);
    forall x: Message | MadeOf(accepted, number, x)
      ensures x == Message(flight[m].kind, flight[m].body)
    {
      DeliveredIsSent(accepted, number, x, messages);
    }
  }
}

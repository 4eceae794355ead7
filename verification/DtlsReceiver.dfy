/** Receiving a DTLS flight: a ring of partly received messages (ssl/d1_both.cc; section 4.2.3 of
    RFC 6347). */
module DtlsReceiver {
  import opened Bytes
  import opened DbFormat
  import opened Reassembly

  /** A parsed handshake fragment. */
  datatype Fragment = Fragment(kind: byte, number: nat, msgLen: nat, off: nat, body: seq<byte>) {
    predicate Covers(i: nat) { off <= i < off + |body| }
  }

  /** A whole message, as the sender has it. */
  datatype Message = Message(kind: byte, body: seq<byte>)

  ghost predicate MaskIs(mask: seq<bv8>, got: set<nat>) {
    forall i: nat :: i / 8 < |mask| ==> (Got(mask, i) <==> i in got)
  }

  ghost function Range(start: nat, end: nat): (s: set<nat>)
    ensures forall i: nat :: i in s <==> start <= i < end
  {
    if end <= start then {} else Range(start, end - 1) + {end - 1}
  }

  predicate IsOther(a: object, b: object) {
    a != b
  }

  /** What a slot of the ring holds. */
  datatype View = View(kind: byte, number: nat, msgLen: nat, data: seq<byte>, got: set<nat>)

  /** hm_fragment: a message being reassembled. The mask is gone once the message is complete. */
  class HmFragment {
    const kind: byte
    const number: nat
    const msgLen: nat
    const data: array<byte>
    var reassembly: array?<bv8>
    ghost var got: set<nat>
    ghost var Repr: set<object>

    ghost predicate Valid()
      reads this, Repr
    {
      && this in Repr && data in Repr && (reassembly != null ==> reassembly in Repr && IsOther(data, reassembly))
      && data.Length == msgLen && (forall i :: i in got ==> i < msgLen)
      && (reassembly == null ==> forall i: nat :: i < msgLen ==> i in got)
      && (reassembly != null ==>
            && reassembly.Length == (msgLen + 7) / 8 && MaskIs(reassembly[..], got)
            && exists i: nat :: i < msgLen && i !in got)
    }

    ghost function Content(): View
      reads this, Repr
      requires data in Repr
    {
      View(kind, number, msgLen, data[..], got)
    }

    constructor (f: Fragment)
      ensures Valid() && fresh(Repr) && got == {} && (reassembly == null <==> f.msgLen == 0)
      ensures kind == f.kind && number == f.number && msgLen == f.msgLen
    {
      kind, number, msgLen, got := f.kind, f.number, f.msgLen, {};
      var bytes := new byte[f.msgLen](_ => 0);
      data := bytes;
      var mask: array?<bv8> := null;
      if f.msgLen > 0 {
        mask := new bv8[(f.msgLen + 7) / 8](_ => 0);
        NothingGot(mask[..]);
      }
      reassembly := mask;
      new;
      Repr := {this, data};
      if reassembly != null {
        Repr := Repr + {reassembly};
        assert 0 !in got && IsOther(data, reassembly);
      }
    }

    /** The copy and dtls1_hm_fragment_mark. */
    method Receive(off: nat, body: seq<byte>)
      requires Valid() && reassembly != null && off + |body| <= msgLen
      modifies `reassembly, `got, data, reassembly
      ensures Valid() && Repr == old(Repr) && got == old(got) + Range(off, off + |body|)
      ensures forall i :: 0 <= i < msgLen ==> data[i] == if off <= i < off + |body| then body[i - off] else old(data[i])
    {
      for i := 0 to |body|
        invariant forall j :: 0 <= j < msgLen ==> data[j] == if off <= j < off + i then body[j - off] else old(data[j])
        invariant reassembly == old(reassembly) && reassembly[..] == old(reassembly[..]) && got == old(got)
      {
        data[off + i] := body[i];
      }
      Mark(off, off + |body|);
    }

    method Mark(start: nat, end: nat)
      requires Valid() && reassembly != null && start <= end <= msgLen
      modifies `reassembly, `got, reassembly
      ensures Valid() && data[..] == old(data[..]) && got == old(got) + Range(start, end)
    {
      ghost var was := reassembly[..];
      got := got + Range(start, end);
      if start == end {
        assert got == old(got);
        return;
      }
      MarkRange(reassembly, start, end);
      RangeIsMarked(was, reassembly[..], old(got), start, end);
      var complete := IsComplete(reassembly, msgLen);
      if complete {
        reassembly := null;
      }
    }
  }

  lemma NothingGot(mask: seq<bv8>)
    requires forall b :: 0 <= b < |mask| ==> mask[b] == 0
    ensures MaskIs(mask, {})
  {
  }

  lemma RangeIsMarked(was: seq<bv8>, now: seq<bv8>, got: set<nat>, start: nat, end: nat)
    requires MaskIs(was, got) && |now| == |was| && start < end
    requires forall b :: 0 <= b < |was| ==> now[b] == MarkedByte(was[b], b, start, end)
    ensures MaskIs(now, got + Range(start, end))
  {
    forall i: nat | i / 8 < |now|
      ensures Got(now, i) <==> i in got + Range(start, end)
    {
      MarkedByteBits(was[i / 8], i / 8, start, end);
      assert Got(was, i) <==> i in got;
      assert 8 * (i / 8) + i % 8 == i;
    }
  }

  // ---- The ring

  /** What a record's fragment comes to. */
  datatype Outcome = Accepted | Ignored | Failed

  ghost predicate Covered(accepted: seq<Fragment>, number: nat, i: nat) {
    exists f :: f in accepted && f.number == number && f.Covers(i)
  }

  ghost predicate Carried(accepted: seq<Fragment>, number: nat, i: nat, b: byte) {
    exists f :: f in accepted && f.number == number && f.Covers(i) && f.body[i - f.off] == b
  }

  ghost predicate Begun(accepted: seq<Fragment>, number: nat) {
    exists f :: f in accepted && f.number == number
  }

  /** An earlier fragment of the message gives it another type or length. */
  ghost predicate Mismatch(accepted: seq<Fragment>, f: Fragment) {
    exists g :: g in accepted && g.number == f.number && (g.kind != f.kind || g.msgLen != f.msgLen)
  }

  /** A slot holds exactly what the accepted fragments of its message carried. */
  ghost predicate SlotHolds(accepted: seq<Fragment>, v: View) {
    && Begun(accepted, v.number) && |v.data| == v.msgLen
    && (forall f :: f in accepted && f.number == v.number ==> f.kind == v.kind && f.msgLen == v.msgLen && f.off + |f.body| <= v.msgLen)
    && (forall i: nat :: i in v.got <==> Covered(accepted, v.number, i))
    && (forall i: nat :: i in v.got && i < v.msgLen ==> Carried(accepted, v.number, i, v.data[i]))
  }

  /** The slot of a message number holds that message, or nothing was accepted for it. */
  ghost predicate SlotOK(accepted: seq<Fragment>, readSeq: nat, window: nat, i: nat, slot: Option<View>)
    requires window > 0
  {
    match slot
    case None => forall f :: f in accepted && f.number >= readSeq ==> f.number % window != i
    case Some(v) => readSeq <= v.number < readSeq + window && v.number % window == i && SlotHolds(accepted, v)
  }

  ghost predicate RingOK(accepted: seq<Fragment>, readSeq: nat, window: nat, slots: seq<Option<View>>) {
    && window > 0 && |slots| == window && (forall f :: f in accepted ==> f.number < readSeq + window)
    && forall i: nat :: i < window ==> SlotOK(accepted, readSeq, window, i, slots[i])
  }

  /** The fragment lies within its message, which is not too long. */
  predicate Proper(f: Fragment, maxLen: nat) {
    f.off + |f.body| <= f.msgLen <= maxLen
  }

  /** The earlier fragments of the message give it the same type and length. */
  ghost predicate Agrees(before: seq<Fragment>, f: Fragment) {
    forall g :: g in before && g.number == f.number ==> g.kind == f.kind && g.msgLen == f.msgLen
  }

  /** The fragments whose numbers are in the window. */
  function FromWindow(fragments: seq<Fragment>, readSeq: nat, window: nat): seq<Fragment> {
    if fragments == [] then []
    else
      var n := |fragments| - 1;
      FromWindow(fragments[..n], readSeq, window)
        + if readSeq <= fragments[n].number < readSeq + window then [fragments[n]] else []
  }

  lemma FromWindowNext(fragments: seq<Fragment>, i: nat, readSeq: nat, window: nat)
    requires i < |fragments|
    ensures FromWindow(fragments[..i + 1], readSeq, window)
         == FromWindow(fragments[..i], readSeq, window)
              + if readSeq <= fragments[i].number < readSeq + window then [fragments[i]] else []
  {
    assert fragments[..i + 1][..i] == fragments[..i];
  }

  lemma {:induction false} FromWindowMembers(fragments: seq<Fragment>, readSeq: nat, window: nat)
    ensures forall f :: f in FromWindow(fragments, readSeq, window) <==> f in fragments && readSeq <= f.number < readSeq + window
  {
    if fragments != [] {
      var n := |fragments| - 1;
      FromWindowMembers(fragments[..n], readSeq, window);
      assert fragments == fragments[..n] + [fragments[n]];
    }
  }

  /** A fragment from the window agrees with the accepted ones as it does with all before it. */
  lemma SameAgreement(before: seq<Fragment>, fragments: seq<Fragment>, readSeq: nat, window: nat, f: Fragment)
    requires readSeq <= f.number < readSeq + window
    ensures Agrees(before + FromWindow(fragments, readSeq, window), f) <==> Agrees(before + fragments, f)
    ensures Mismatch(before + FromWindow(fragments, readSeq, window), f) <==> !Agrees(before + fragments, f)
  {
    FromWindowMembers(fragments, readSeq, window);
  }

  /** A flight that was delivered, sent once more, is taken without an error and changes nothing. */
  method ReplayIsIgnored(receiver: Receiver, fragments: seq<Fragment>) returns (ok: bool)
    requires receiver.Valid() && !receiver.encrypted
    requires forall f :: f in fragments ==> Proper(f, receiver.maxLen) && f.number < receiver.readSeq
    modifies receiver.Repr
    ensures receiver.Valid() && ok && receiver.accepted == old(receiver.accepted) && receiver.readSeq == old(receiver.readSeq)
  {
    FromWindowMembers(fragments, receiver.readSeq, receiver.window);
    NothingFromPast(fragments, receiver.readSeq, receiver.window);
    ok := receiver.OpenHandshake(fragments);
  }

  lemma {:induction false} NothingFromPast(fragments: seq<Fragment>, readSeq: nat, window: nat)
    requires forall f :: f in fragments ==> f.number < readSeq
    ensures FromWindow(fragments, readSeq, window) == []
  {
    if fragments != [] {
      NothingFromPast(fragments[..|fragments| - 1], readSeq, window);
    }
  }

  class Receiver {
    const window: nat
    const maxLen: nat
    var readSeq: nat
    var encrypted: bool
    var incoming: seq<HmFragment?>
    ghost var slots: seq<Option<View>>
    ghost var accepted: seq<Fragment>
    ghost var Repr: set<object>

    ghost predicate Owns()
      reads this, Repr
    {
      && this in Repr && |incoming| == |slots| == window
      && (forall i :: 0 <= i < window && incoming[i] != null ==>
            && incoming[i] in Repr && incoming[i].Repr <= Repr && this !in incoming[i].Repr && incoming[i].Valid()
            && slots[i] == Some(incoming[i].Content()))
      && (forall i :: 0 <= i < window && incoming[i] == null ==> slots[i] == None)
      && (forall i, j :: 0 <= i < j < window && incoming[i] != null && incoming[j] != null ==>
            incoming[i].Repr !! incoming[j].Repr)
    }

    ghost predicate Valid()
      reads this, Repr
    {
      Owns() && RingOK(accepted, readSeq, window, slots)
    }

    constructor (window: nat, maxLen: nat)
      requires window > 0
      ensures Valid() && fresh(Repr) && readSeq == 0 && accepted == [] && this.window == window && this.maxLen == maxLen && !encrypted
    {
      this.window, this.maxLen, readSeq, encrypted, accepted := window, maxLen, 0, false, [];
      incoming := seq(window, _ => null);
      slots := seq(window, _ => None);
      Repr := {this};
    }

    /** What OpenFragment must answer. */
    ghost function Expected(f: Fragment): Outcome
      reads this
    {
      if f.off + |f.body| > f.msgLen || f.msgLen > maxLen then Failed
      else if encrypted && f.number != readSeq then Failed
      else if f.number < readSeq || f.number > readSeq + window then Ignored
      else if f.number == readSeq + window || Mismatch(accepted, f) then Failed
      else Accepted
    }

    /** Of the fragments from behind the window all are ignored but those at its very end. */
    lemma FutureIsIgnoredIff(f: Fragment)
      requires f.off + |f.body| <= f.msgLen <= maxLen && !encrypted && f.number >= readSeq + window
      ensures Expected(f).Ignored? <==> f.number != readSeq + window
      ensures Expected(f).Failed? <==> f.number == readSeq + window
    {
    }

    /** dtls1_get_incoming_message for a number in the window. A new slot is not yet counted. */
    method GetIncomingMessage(f: Fragment) returns (frag: HmFragment?)
      requires Valid() && readSeq <= f.number < readSeq + window
      modifies `incoming, `slots, `Repr
      ensures Owns() && fresh(Repr - old(Repr)) && old(Repr) <= Repr
      ensures frag == null <==> Mismatch(accepted, f)
      ensures frag == null ==> slots == old(slots)
      ensures frag != null ==>
        && incoming[f.number % window] == frag
        && slots == old(slots)[f.number % window := Some(frag.Content())] && SlotFor(accepted, f, frag.Content())
    {
      SlotOfNumber(accepted, readSeq, window, slots, f);
      var idx := f.number % window;
      frag := incoming[idx];
      if frag != null {
        if frag.kind != f.kind || frag.msgLen != f.msgLen {
          frag := null;
        }
      } else {
        frag := new HmFragment(f);
        incoming := incoming[idx := frag];
        slots := slots[idx := Some(frag.Content())];
        Repr := Repr + frag.Repr;
      }
    }

    /** One round of the loop of dtls1_open_handshake. */
    method OpenFragment(f: Fragment) returns (r: Outcome)
      requires Valid()
      modifies Repr
      ensures Valid() && fresh(Repr - old(Repr)) && readSeq == old(readSeq) && encrypted == old(encrypted)
      ensures r == old(Expected(f))
      ensures r.Failed? <==> !Harmless(old(accepted), f)
      ensures r.Accepted? <==> Harmless(old(accepted), f) && readSeq <= f.number < readSeq + window
      ensures accepted == if r.Accepted? then old(accepted) + [f] else old(accepted)
    {
      if f.off + |f.body| > f.msgLen || f.msgLen > maxLen {
        return Failed;
      }
      if encrypted && f.number != readSeq {
        return Failed;
      }
      if f.number < readSeq || f.number > readSeq + window {
        return Ignored;
      }
      if f.number == readSeq + window {
        return Failed;
      }
      var ok := Accept(f);
      return if ok then Accepted else Failed;
    }

    /** Find the slot and fill it. */
    method Accept(f: Fragment) returns (ok: bool)
      requires Valid() && readSeq <= f.number < readSeq + window && f.off + |f.body| <= f.msgLen
      modifies `incoming, `slots, `accepted, `Repr, Repr
      ensures Valid() && fresh(Repr - old(Repr)) && readSeq == old(readSeq) && encrypted == old(encrypted)
      ensures ok <==> !Mismatch(old(accepted), f)
      ensures accepted == if ok then old(accepted) + [f] else old(accepted)
    {
      var frag := GetIncomingMessage(f);
      ok := frag != null;
      if frag != null {
        ghost var was, copied := Take(frag, f, f.number % window);
        RingReceives(accepted, readSeq, window, old(slots), f, was, frag.Content(), copied);
        UpdateTwice(old(slots), f.number % window, Some(was), Some(frag.Content()));
        accepted := accepted + [f];
      }
    }

    /** Copy the body into the slot and mark it, unless the message is already assembled. */
    method Take(frag: HmFragment, f: Fragment, ghost idx: nat) returns (ghost was: View, ghost copied: bool)
      requires Owns() && idx < window && incoming[idx] == frag && f.off + |f.body| <= frag.msgLen
      modifies `slots, frag.Repr
      ensures Owns() && slots == old(slots)[idx := Some(frag.Content())] && was == old(frag.Content())
      ensures if copied then Received(was, f, frag.Content())
              else frag.Content() == was && forall i: nat :: i < was.msgLen ==> i in was.got
    {
      was, copied := frag.Content(), frag.reassembly != null;
      if frag.reassembly != null {
        Fill(frag, f, idx);
      }
    }

    method Fill(frag: HmFragment, f: Fragment, ghost idx: nat)
      requires Owns() && idx < window && incoming[idx] == frag && frag.reassembly != null
      requires f.off + |f.body| <= frag.msgLen
      modifies `slots, frag.Repr
      ensures Owns() && slots == old(slots)[idx := Some(frag.Content())]
      ensures Received(old(frag.Content()), f, frag.Content())
      ensures frag.Repr == old(frag.Repr)
    {
      hide Begun;
      frag.Receive(f.off, f.body);
      slots := slots[idx := Some(frag.Content())];
    }

    /** The loop of dtls1_open_handshake over the fragments of a record. It succeeds exactly when no
        fragment is an error in its turn, and then those from the window are accepted, in order. */
    method OpenHandshake(fragments: seq<Fragment>) returns (ok: bool)
      requires Valid()
      modifies Repr
      ensures Valid() && fresh(Repr - old(Repr)) && readSeq == old(readSeq) && encrypted == old(encrypted)
      ensures ok <==> forall i :: 0 <= i < |fragments| ==> Harmless(old(accepted) + fragments[..i], fragments[i])
      ensures old(accepted) <= accepted && forall f :: f in accepted ==> f in old(accepted) || f in fragments
      ensures ok ==> accepted == old(accepted) + FromWindow(fragments, readSeq, window)
      ensures ok ==> forall f :: f in fragments && readSeq <= f.number < readSeq + window ==> f in accepted
    {
      hide Valid, Expected, Agrees, Mismatch;
      ghost var before := accepted;
      for i := 0 to |fragments|
        invariant Valid() && fresh(Repr - old(Repr)) && readSeq == old(readSeq) && encrypted == old(encrypted)
        invariant accepted == before + FromWindow(fragments[..i], readSeq, window)
        invariant forall k :: 0 <= k < i ==> Harmless(before + fragments[..k], fragments[k])
      {
        FromWindowNext(fragments, i, readSeq, window);
        if readSeq <= fragments[i].number < readSeq + window {
          SameAgreement(before, fragments[..i], readSeq, window, fragments[i]);
        }
        var r := OpenFragment(fragments[i]);
        if r.Failed? {
          FromWindowMembers(fragments[..i], readSeq, window);
          assert !Harmless(before + fragments[..i], fragments[i]);
          return false;
        }
      }
      assert fragments[..|fragments|] == fragments;
      FromWindowMembers(fragments, readSeq, window);
      return true;
    }

    /** In its turn, after `before`, this fragment is no error: it is accepted if its number is in the
        window, and ignored otherwise. */
    ghost predicate Harmless(before: seq<Fragment>, f: Fragment)
      reads this
    {
      && Proper(f, maxLen) && (encrypted ==> f.number == readSeq) && f.number != readSeq + window
      && (readSeq <= f.number < readSeq + window ==> Agrees(before, f))
    }

    /** dtls1_get_message: a message is there exactly when the accepted fragments cover it. */
    method GetMessage() returns (r: Option<Message>)
      requires Valid()
      ensures r.Some? <==> Assembled(accepted, readSeq)
      ensures r.Some? ==> MadeOf(accepted, readSeq, r.value)
    {
      var frag := incoming[readSeq % window];
      CurrentSlot(accepted, readSeq, window, slots);
      if frag != null && frag.reassembly == null {
        return Some(Message(frag.kind, frag.data[..]));
      }
      return None;
    }

    /** dtls1_next_message: the slot is free for a later number. */
    method NextMessage()
      requires Valid() && Assembled(accepted, readSeq)
      modifies `readSeq, `incoming, `slots
      ensures Valid() && readSeq == old(readSeq) + 1 && accepted == old(accepted) && Repr == old(Repr)
    {
      RingMovesOn(accepted, readSeq, window, slots);
      var index := readSeq % window;
      incoming := incoming[index := null];
      slots := slots[index := None];
      readSeq := readSeq + 1;
    }
  }

  /** The message can be delivered: a fragment of it was accepted, and the fragments cover it. */
  ghost predicate Assembled(accepted: seq<Fragment>, number: nat) {
    exists f :: f in accepted && f.number == number && forall i: nat :: i < f.msgLen ==> Covered(accepted, number, i)
  }

  /** The message is made of bytes that accepted fragments carried. */
  ghost predicate MadeOf(accepted: seq<Fragment>, number: nat, m: Message) {
    && (forall f :: f in accepted && f.number == number ==> f.kind == m.kind && f.msgLen == |m.body|)
    && forall i: nat :: i < |m.body| ==> Carried(accepted, number, i, m.body[i])
  }

  /** The slot that a fragment goes to: its message as it was, or a new one. */
  ghost predicate SlotFor(accepted: seq<Fragment>, f: Fragment, v: View) {
    && v.number == f.number && v.kind == f.kind && v.msgLen == f.msgLen && |v.data| == v.msgLen && !Mismatch(accepted, f)
    && if Begun(accepted, f.number) then SlotHolds(accepted, v) else v.got == {}
  }

  ghost predicate Received(was: View, f: Fragment, now: View)
    requires |was.data| == was.msgLen
  {
    && now.number == was.number && now.kind == was.kind && now.msgLen == was.msgLen && |now.data| == now.msgLen
    && now.got == was.got + Range(f.off, f.off + |f.body|)
    && forall i :: 0 <= i < now.msgLen ==> now.data[i] == if f.Covers(i) then f.body[i - f.off] else was.data[i]
  }

  /** An empty message whose number is the first one behind the window is an error, and the next number
      is ignored. */
  method EndOfWindow(window: nat) returns (atEnd: Outcome, behind: Outcome)
    requires window > 0
    ensures atEnd.Failed? && behind.Ignored?
  {
    var receiver := new Receiver(window, 0);
    assert !Mismatch([], Fragment(1, window, 0, 0, []));
    atEnd := receiver.OpenFragment(Fragment(1, window, 0, 0, []));
    behind := receiver.OpenFragment(Fragment(1, window + 1, 0, 0, []));
  }

  lemma SlotOfNumber(accepted: seq<Fragment>, readSeq: nat, window: nat, slots: seq<Option<View>>, f: Fragment)
    requires RingOK(accepted, readSeq, window, slots) && readSeq <= f.number < readSeq + window
    ensures match slots[f.number % window]
      case None => !Begun(accepted, f.number) && !Mismatch(accepted, f)
      case Some(v) => v.number == f.number && (Mismatch(accepted, f) <==> v.kind != f.kind || v.msgLen != f.msgLen)
                      && SlotHolds(accepted, v)
  {
    var idx := f.number % window;
    assert SlotOK(accepted, readSeq, window, idx, slots[idx]);
    if slots[idx].Some? {
      SameSlot(slots[idx].value.number, f.number, readSeq, window);
    }
  }

  lemma CurrentSlot(accepted: seq<Fragment>, readSeq: nat, window: nat, slots: seq<Option<View>>)
    requires RingOK(accepted, readSeq, window, slots)
    ensures match slots[readSeq % window]
      case None => !Assembled(accepted, readSeq)
      case Some(v) =>
        && v.number == readSeq && SlotHolds(accepted, v)
        && (Assembled(accepted, readSeq) <==> forall i: nat :: i < v.msgLen ==> i in v.got)
        && ((forall i: nat :: i < v.msgLen ==> i in v.got) ==> MadeOf(accepted, readSeq, Message(v.kind, v.data)))
  {
    var idx := readSeq % window;
    assert SlotOK(accepted, readSeq, window, idx, slots[idx]);
    if slots[idx].Some? {
      SameSlot(slots[idx].value.number, readSeq, readSeq, window);
      var f :| f in accepted && f.number == readSeq;
    }
  }

  lemma RingMovesOn(accepted: seq<Fragment>, readSeq: nat, window: nat, slots: seq<Option<View>>)
    requires RingOK(accepted, readSeq, window, slots)
    ensures RingOK(accepted, readSeq + 1, window, slots[readSeq % window := None])
  {
    var idx, slots' := readSeq % window, slots[readSeq % window := None];
    forall i: nat | i < window
      ensures SlotOK(accepted, readSeq + 1, window, i, slots'[i])
    {
      assert SlotOK(accepted, readSeq, window, i, slots[i]);
      if i == idx {
        forall f | f in accepted && f.number >= readSeq + 1
          ensures f.number % window != i
        {
          OtherSlot(f.number, readSeq, window);
        }
      }
    }
  }

  lemma OtherSlot(n: nat, readSeq: nat, window: nat)
    requires readSeq < n < readSeq + window
    ensures n % window != readSeq % window
  {
    if n % window == readSeq % window {
      SameSlot(n, readSeq, readSeq, window);
    }
  }

  // ---- An honest sender

  /** A fragment cut from the message of its number. */
  ghost predicate CutFrom(f: Fragment, flight: nat -> Message) {
    var m := flight(f.number);
    f.kind == m.kind && f.msgLen == |m.body| && f.off + |f.body| <= |m.body| && f.body == m.body[f.off..f.off + |f.body|]
  }

  /** Whatever order, overlap, duplication or loss the fragments met on the way, a delivered
      message is the one that was sent. */
  lemma DeliveredIsSent(accepted: seq<Fragment>, number: nat, m: Message, flight: nat -> Message)
    requires Begun(accepted, number) && MadeOf(accepted, number, m)
    requires forall f :: f in accepted && f.number == number ==> CutFrom(f, flight)
    ensures m == flight(number)
  {
    var f :| f in accepted && f.number == number;
    assert CutFrom(f, flight);
    forall i: nat | i < |m.body|
      ensures m.body[i] == flight(number).body[i]
    {
      assert Carried(accepted, number, i, m.body[i]);
      var g :| g in accepted && g.number == number && g.Covers(i) && g.body[i - g.off] == m.body[i];
      assert CutFrom(g, flight);
      assert g.body[i - g.off] == flight(number).body[g.off..g.off + |g.body|][i - g.off];
    }
  }

  /** Fragments of the peer's messages are accepted if their numbers are in the window, in any order, and
      none is an error. */
  method FlightIsAccepted(receiver: Receiver, fragments: seq<Fragment>, ghost flight: nat -> Message) returns (ok: bool)
    requires receiver.Valid() && !receiver.encrypted
    requires forall f :: f in receiver.accepted + fragments ==> CutFrom(f, flight)
    requires forall f :: f in fragments ==> f.msgLen <= receiver.maxLen && f.number < receiver.readSeq + receiver.window
    modifies receiver.Repr
    ensures receiver.Valid() && ok && old(receiver.accepted) <= receiver.accepted
    ensures forall f :: f in fragments && f.number >= receiver.readSeq ==> f in receiver.accepted
  {
    forall i | 0 <= i < |fragments|
      ensures receiver.Harmless(receiver.accepted + fragments[..i], fragments[i])
    {
      assert CutFrom(fragments[i], flight);
      forall g | g in receiver.accepted + fragments[..i]
        ensures CutFrom(g, flight)
      {
        assert g in receiver.accepted + fragments;
      }
    }
    ok := receiver.OpenHandshake(fragments);
  }

  /** The ring after one more fragment, copied or already complete. */
  lemma RingReceives(accepted: seq<Fragment>, readSeq: nat, window: nat, slots: seq<Option<View>>, f: Fragment,
                     was: View, now: View, copied: bool)
    requires RingOK(accepted, readSeq, window, slots) && readSeq <= f.number < readSeq + window
    requires f.off + |f.body| <= f.msgLen && SlotFor(accepted, f, was)
    requires if copied then Received(was, f, now) else now == was && forall i: nat :: i < was.msgLen ==> i in was.got
    ensures RingOK(accepted + [f], readSeq, window, slots[f.number % window := Some(now)])
  {
    SlotReceives(accepted, f, was, now, copied);
    var idx, more, slots' := f.number % window, accepted + [f], slots[f.number % window := Some(now)];
    forall i: nat | i < window
      ensures SlotOK(more, readSeq, window, i, slots'[i])
    {
      assert SlotOK(accepted, readSeq, window, i, slots[i]);
      if i != idx && slots[i].Some? {
        OtherSlotKeeps(accepted, f, slots[i].value);
      }
    }
  }

  lemma UpdateTwice<T>(s: seq<T>, i: nat, x: T, y: T)
    requires i < |s|
    ensures s[i := x][i := y] == s[i := y]
  {
  }

  lemma SameSlot(a: nat, b: nat, low: nat, w: nat)
    requires w > 0 && a % w == b % w && low <= a < low + w && low <= b < low + w
    ensures a == b
  {
    var p: int, q: int := a / w, b / w;
    assert a - b == (p - q) * w;
    MultipleGrows(p - q, w);
  }

  lemma MultipleGrows(m: int, w: nat)
    ensures (m >= 1 ==> m * w >= w) && (m <= -1 ==> m * w <= 0 - w)
  {
  }

  // ---- One more fragment

  lemma SlotReceives(accepted: seq<Fragment>, f: Fragment, was: View, now: View, copied: bool)
    requires SlotFor(accepted, f, was) && f.off + |f.body| <= f.msgLen
    requires if copied then Received(was, f, now) else now == was && forall i: nat :: i < was.msgLen ==> i in was.got
    ensures SlotHolds(accepted + [f], now)
  {
    var more := accepted + [f];
    assert f in more;
    forall i: nat
      ensures i in now.got <==> Covered(more, f.number, i)
    {
      CoveredNext(accepted, f, f.number, i);
      assert Covered(accepted, f.number, i) ==> Begun(accepted, f.number);
    }
    forall i: nat | i in now.got && i < f.msgLen
      ensures Carried(more, f.number, i, now.data[i])
    {
      if copied && f.Covers(i) {
        assert f.body[i - f.off] == now.data[i];
      } else {
        assert i in was.got && now.data[i] == was.data[i];
        var g :| g in accepted && g.number == f.number && g.Covers(i) && g.body[i - g.off] == was.data[i];
        assert g in more;
      }
    }
    forall g | g in more && g.number == f.number
      ensures g.kind == f.kind && g.msgLen == f.msgLen && g.off + |g.body| <= f.msgLen
    {
      assert g in accepted ==> Begun(accepted, f.number);
    }
  }

  lemma CoveredNext(accepted: seq<Fragment>, f: Fragment, number: nat, i: nat)
    ensures Covered(accepted + [f], number, i) <==> Covered(accepted, number, i) || (f.number == number && f.Covers(i))
  {
    var more := accepted + [f];
    assert f in more;
    if Covered(accepted, number, i) {
      var g :| g in accepted && g.number == number && g.Covers(i);
      assert g in more;
    }
  }

  /** A fragment of another message changes nothing here. */
  lemma OtherSlotKeeps(accepted: seq<Fragment>, f: Fragment, v: View)
    requires f.number != v.number && SlotHolds(accepted, v)
    ensures SlotHolds(accepted + [f], v)
  {
    var more := accepted + [f];
    var b :| b in accepted && b.number == v.number;
    assert b in more;
    forall i: nat
      ensures i in v.got <==> Covered(more, v.number, i)
    {
      CoveredNext(accepted, f, v.number, i);
    }
    forall i: nat | i in v.got && i < v.msgLen
      ensures Carried(more, v.number, i, v.data[i])
    {
      var g :| g in accepted && g.number == v.number && g.Covers(i) && g.body[i - g.off] == v.data[i];
      assert g in more;
    }
  }
}

// One NVMe queue pair: the driver's submit and poll, the controller's fetch and post, and all their interleavings.
// Rings, doorbells and phase tags are those of sections 4.1 and 4.6 of the NVM Express Base Specification 1.4.

module NvmeQueuePair {
  import opened Bytes
  import opened Options
  import opened Revisions

  // ---------------------------------------------------------------- command identifiers and doorbells

  /** The command identifier for ring slot `ptr` of queue pair `id`; pair 0 is the admin pair. */
  function CidOf(id: nat, ptr: nat): nat {
    if id == 0 then 0x8000 + ptr % 0x100 else id % 0x40 + ptr % 0x100 * 0x40
  }

  /** The slot that a poll frees.  Shipped: on the admin pair, the whole identifier.  Repair: its low byte. */
  function FreedSlot(rev: Revision, id: nat, cid: nat): nat {
    if id != 0 then cid / 0x40 % 0x100 else if rev.AsShipped? then cid else cid % 0x100
  }

  lemma FreedSlotIsAllocatedIff(rev: Revision, id: nat, ptr: nat)
    requires ptr < 0x100
    ensures FreedSlot(rev, id, CidOf(id, ptr)) == ptr <==> id != 0 || rev.Repaired?
    ensures id == 0 && rev.AsShipped? ==> FreedSlot(rev, id, CidOf(id, ptr)) == 0x8000 + ptr
  {}

  /** Where an identifier holds what: pair number in its low six bits and slot in the eight above, or bit 15 and the
      slot on the admin pair. */
  lemma CidHolds(id: nat, ptr: nat)
    requires ptr < 0x100
    ensures CidOf(id, ptr) < 0x1_0000
    ensures id != 0 ==> CidOf(id, ptr) % 0x40 == id % 0x40 && CidOf(id, ptr) / 0x40 == ptr
    ensures id == 0 ==> CidOf(id, ptr) / 0x8000 == 1 && CidOf(id, ptr) % 0x8000 == ptr
    ensures CidOf(5, 3) == 0xC5 && CidOf(0, 3) == 0x8003
  {}

  /** Identifiers are told apart by pair and slot as long as pair numbers fit their six bits. */
  lemma CidsDifferIff(id: nat, ptr: nat, id': nat, ptr': nat)
    requires ptr < 0x100 && ptr' < 0x100
    ensures CidOf(id, ptr) == CidOf(id', ptr') <==>
              ptr == ptr' && ((id == 0 && id' == 0) || (id != 0 && id' != 0 && id % 0x40 == id' % 0x40))
  {}

  /** The doorbell registers: 4-byte words behind the controller properties, `4 << stride` bytes apart. */
  function SubmissionDoorbell(stride: nat, id: nat): nat {
    0x1000 + 2 * id * (4 * Pow2(stride))
  }

  function CompletionDoorbell(stride: nat, id: nat): nat {
    0x1000 + (2 * id + 1) * (4 * Pow2(stride))
  }

  function Doorbell(stride: nat, id: nat, completion: bool): nat {
    if completion then CompletionDoorbell(stride, id) else SubmissionDoorbell(stride, id)
  }

  /** Submission and completion doorbells take turns from 0x1000 on, one register of `4 << stride` bytes after the
      other. */
  lemma DoorbellsTakeTurns(stride: nat, id: nat)
    ensures SubmissionDoorbell(stride, 0) == 0x1000
    ensures CompletionDoorbell(stride, id) == SubmissionDoorbell(stride, id) + 4 * Pow2(stride)
    ensures SubmissionDoorbell(stride, id + 1) == CompletionDoorbell(stride, id) + 4 * Pow2(stride)
    ensures SubmissionDoorbell(0, 1) == 0x1008 && CompletionDoorbell(0, 1) == 0x100C
  {
    var w := 4 * Pow2(stride);
    assert (2 * id + 1) * w == 2 * id * w + w && 2 * (id + 1) * w == (2 * id + 1) * w + w;
  }

  lemma DoorbellsAreDisjoint(stride: nat, id: nat, completion: bool, id': nat, completion': bool)
    requires id != id' || completion != completion'
    ensures Doorbell(stride, id, completion) + 4 <= Doorbell(stride, id', completion')
         || Doorbell(stride, id', completion') + 4 <= Doorbell(stride, id, completion)
  {
    var w := 4 * Pow2(stride);
    var k, k' := 2 * id + (if completion then 1 else 0), 2 * id' + (if completion' then 1 else 0);
    assert Doorbell(stride, id, completion) == 0x1000 + k * w && Doorbell(stride, id', completion') == 0x1000 + k' * w;
    assert (k - k') * w == k * w - k' * w;
    MultipleIsLarge(k - k', w);
  }

  // ---------------------------------------------------------------- the driver's side

  /** A submission queue entry: its identifier, and which command it is (the order of its submission). */
  datatype Command = Command(cid: nat, which: nat)

  datatype Completion = Completion(cid: nat, phase: bool, status: nat)

  /** What submit and poll read and write: the two rings, their indices, the expected phase and the doorbells. */
  datatype Host = Host(id: nat, sq: seq<Command>, cq: seq<Completion>, subIdx: nat, cmpIdx: nat, phase: bool,
                       sqTail: nat, cqHead: nat)

  ghost predicate ValidHost(h: Host) {
    h.subIdx < |h.sq| && h.cmpIdx < |h.cq|
  }

  function HostSubmit(h: Host, which: nat): Host
    requires ValidHost(h)
  {
    var next := (h.subIdx + 1) % |h.sq|;
    h.(sq := h.sq[h.subIdx := Command(CidOf(h.id, h.subIdx), which)], subIdx := next, sqTail := next)
  }

  /** The condition that ends the spin of the poll. */
  predicate HostReady(h: Host, cid: nat)
    requires ValidHost(h)
  {
    h.cq[h.cmpIdx].phase == h.phase && h.cq[h.cmpIdx].cid == cid
  }

  /** Shipped: two tests flip the phase at the end of the ring, so that it never changes.  Repair: one does. */
  function NextPhase(rev: Revision, phase: bool, idx: nat, objs: nat): bool
    requires idx < objs
  {
    if rev.Repaired? && idx == objs - 1 then !phase else phase
  }

  function HostConsume(rev: Revision, h: Host): Host
    requires ValidHost(h)
  {
    var next := (h.cmpIdx + 1) % |h.cq|;
    h.(cmpIdx := next, cqHead := next, phase := NextPhase(rev, h.phase, h.cmpIdx, |h.cq|))
  }

  lemma ConsumedIs(rev: Revision, h: Host, next: nat, phase: bool)
    requires ValidHost(h) && next == (h.cmpIdx + 1) % |h.cq| && phase == NextPhase(rev, h.phase, h.cmpIdx, |h.cq|)
    ensures HostConsume(rev, h) == h.(cmpIdx := next, cqHead := next, phase := phase)
  {}

  /** The controller's registers, by their distance from the start of its properties. */
  class Registers {
    var words: map<nat, nat>

    constructor ()
      ensures words == map[]
    {
      words := map[];
    }

    method Store(at: nat, value: nat)
      modifies this
      ensures words == old(words)[at := value % TWO_TO_THE_32]
    {
      words := words[at := value % TWO_TO_THE_32];
    }
  }

  class QueuePair {
    const id: nat
    const stride: nat
    const regs: Registers
    const sq: array<Command>
    const cq: array<Completion>
    var subIdx: nat
    var cmpIdx: nat
    var phase: bool

    predicate HasDoorbells()
      reads regs
    {
      SubmissionDoorbell(stride, id) in regs.words && CompletionDoorbell(stride, id) in regs.words
    }

    function View(): Host
      requires HasDoorbells()
      reads this, sq, cq, regs
    {
      Host(id, sq[..], cq[..], subIdx, cmpIdx, phase,
           regs.words[SubmissionDoorbell(stride, id)], regs.words[CompletionDoorbell(stride, id)])
    }

    ghost predicate Valid()
      reads this, sq, cq, regs
    {
      && HasDoorbells() && ValidHost(View())
      && sq.Length < TWO_TO_THE_32 && cq.Length < TWO_TO_THE_32
    }

    /** Both rings and doorbells zeroed, the expected phase 1. */
    constructor (id: nat, stride: nat, regs: Registers, subObjs: nat, cmpObjs: nat)
      requires 0 < subObjs < TWO_TO_THE_32 && 0 < cmpObjs < TWO_TO_THE_32
      modifies regs
      ensures Valid() && View() == InitialHost(id, subObjs, cmpObjs)
      ensures this.id == id && this.stride == stride && this.regs == regs && fresh(sq) && fresh(cq)
    {
      this.id, this.stride, this.regs := id, stride, regs;
      sq := new Command[subObjs](_ => Command(0, 0));
      cq := new Completion[cmpObjs](_ => Completion(0, false, 0));
      subIdx, cmpIdx, phase := 0, 0, true;
      new;
      regs.Store(SubmissionDoorbell(stride, id), 0);
      regs.Store(CompletionDoorbell(stride, id), 0);
      assert sq[..] == seq(subObjs, _ => Command(0, 0));
      assert cq[..] == seq(cmpObjs, _ => Completion(0, false, 0));
    }

    /** `nvme_pci_submit_command`. */
    method Submit(which: nat) returns (cid: nat)
      requires Valid()
      modifies this, sq, regs
      ensures Valid() && View() == HostSubmit(old(View()), which)
      ensures cid == CidOf(id, old(subIdx))
      ensures regs.words == old(regs.words)[SubmissionDoorbell(stride, id) := (old(subIdx) + 1) % sq.Length]
    {
      hide SubmissionDoorbell, CompletionDoorbell, Pow2;
      var ptr := subIdx;
      subIdx := (subIdx + 1) % sq.Length;
      if id == 0 {
        cid := 0x8000 + ptr % 0x100;
      } else {
        cid := id % 0x40 + ptr % 0x100 * 0x40;
      }
      sq[ptr] := Command(cid, which);
      DoorbellsAreDisjoint(stride, id, false, id, true);
      regs.Store(SubmissionDoorbell(stride, id), (ptr + 1) % sq.Length);
      assert sq[..] == old(sq[..])[ptr := Command(cid, which)];
    }

    /** One spin of `nvme_pci_poll_completion` and, when the spin ends the wait, the rest of it.  `freed` is the slot of
        the submission ring that it frees. */
    method Poll(rev: Revision, cid: nat) returns (result: Option<Completion>, freed: nat)
      requires Valid()
      modifies this, regs
      ensures Valid()
      ensures result.Some? <==> old(HostReady(View(), cid))
      ensures result.None? ==> View() == old(View()) && regs.words == old(regs.words)
      ensures result.Some? ==> result.value == old(cq[cmpIdx]) && View() == HostConsume(rev, old(View()))
      ensures result.Some? ==> freed == FreedSlot(rev, id, cid)
      ensures result.Some? ==>
                regs.words == old(regs.words)[CompletionDoorbell(stride, id) := (old(cmpIdx) + 1) % cq.Length]
    {
      hide SubmissionDoorbell, CompletionDoorbell, Pow2, HostConsume;
      ghost var was := View();
      freed := 0;
      if cq[cmpIdx].phase != phase || cq[cmpIdx].cid != cid {
        return None, freed;
      }
      result := Some(cq[cmpIdx]);
      var idx := cmpIdx;
      cmpIdx := (cmpIdx + 1) % cq.Length;
      if idx == cq.Length - 1 {
        phase := !phase;
      }
      DoorbellsAreDisjoint(stride, id, false, id, true);
      regs.Store(CompletionDoorbell(stride, id), (idx + 1) % cq.Length);
      if idx + 1 >= cq.Length && rev.AsShipped? {
        phase := !phase;
      }
      ConsumedIs(rev, was, cmpIdx, phase);
      if id != 0 {
        freed := cid / 0x40 % 0x100;
      } else {
        freed := if rev.AsShipped? then cid else cid % 0x100;
      }
    }
  }

  function InitialHost(id: nat, subObjs: nat, cmpObjs: nat): Host {
    Host(id, seq(subObjs, _ => Command(0, 0)), seq(cmpObjs, _ => Completion(0, false, 0)), 0, 0, true, 0, 0)
  }
}

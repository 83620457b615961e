/**
 * The QDMA work queue: a ring of work-queue entries (WQEs) that callers
 * post requests into, drained into the engine's descriptor ring (block
 * mode and streaming send) or its scatter-gather cache (streaming receive),
 * and retired by completion callbacks from the engine.
 *
 * The queue and the engine's descriptor queue it drives are one class
 * here; the engine itself (queue add/start/stop/remove, request submit,
 * hardware cancel, write-back processing) is represented by parameters
 * carrying its outcomes and by logs of what was handed to it.
 */
module QdmaWq {
  import opened Wrappers
  import opened QdmaTypes
  import opened QdmaChunking
  import opened QdmaEntry

  /** The engine's queue configuration as `qdma_queue_get_config` reports it. */
  datatype QueueConf = QueueConf(st: bool, c2h: bool, c2hBufsz: int, rngsz: nat)

  /** `struct qdma_wq_stat`. */
  datatype Stat = Stat(
    totalReqBytes: nat, totalReqNum: nat, totalCompleteBytes: int, totalCompleteNum: nat,
    totalSlots: nat, freeSlots: nat, pendingSlots: nat, unprocSlots: nat)

  /** A zero-filled WQE, as `vzalloc` leaves the ring. */
  const EmptyWqe: Wqe := Wqe(Submitted, WorkRequest([], 0, 0, false, false, false, 0), 0,
                             Cursor(0, 0, 0, 0, 0), 0, 0, 0, 0, 0)

  /**
   * What a fill pass that wrote descriptors does to the request's counters:
   * a request already pending accumulates, any other one starts counting
   * afresh and becomes pending.
   */
  function Accrue(e: Wqe, total: int): (r: Wqe)
    ensures r.state == Pending && r.wr == e.wr && r.cur == e.cur && r.doneBytes == e.doneBytes
    ensures r.count == (if e.state == Pending then e.count + total else total)
  {
    if e.state == Pending then e.(count := e.count + total, cbOffset := e.cbOffset + total)
    else e.(count := total, cbOffset := total, state := Pending)
  }

  /** The WQE after a block-mode pass that wrote the chunks `cs` and left cursor `c`. */
  function MmAccounted(e: Wqe, cs: seq<Chunk>, c: Cursor): Wqe
  {
    var e1 := e.(cur := c, descNr := |cs|);
    if cs == [] then e1 else Accrue(e1, SumLen(cs))
  }

  /** The WQE after a streaming-send pass with outcome r. */
  function H2cAccounted(e: Wqe, r: H2cOutcome): Wqe
  {
    if r.failed then e.(cur := e.cur.(sgOff := r.cur.sgOff, bytes := r.cur.bytes), descNr := |r.chunks|)
    else Accrue(e.(cur := r.cur, descNr := |r.chunks|), SumLen(r.chunks))
  }

  /** The WQE after a streaming-receive pass starting at cache slot `start`. */
  function C2hAccounted(e: Wqe, ps: seq<Piece>, c: Cursor, start: nat): Wqe
  {
    var e1 := e.(sgl := start, state := Pending, cur := c);
    if ps == [] then e1 else e1.(count := SumPieces(ps), sgcnt := |ps|)
  }

  /**
   * The result and the entry a block-mode fill of e leaves with `room`
   * free descriptors: -ENOENT and no change without room, otherwise 0 and
   * the entry accounted for the pass.
   */
  function MmFillOutcome(e: Wqe, room: nat): (int, Wqe)
    requires OffsetInside(e.wr.frags, e.cur)
  {
    if room == 0 then (-ENOENT, e)
    else
      var pass := MmPass(e.wr.frags, e.cur, room, QDMA_DESC_BLEN_MAX);
      (0, MmAccounted(e, pass.0, pass.1))
  }

  /**
   * The result and the entry a streaming-send fill of e leaves: -ENOENT
   * and no change without room or with the queue offline, otherwise
   * -EINVAL for a pass that failed and 0 for one that did not, and the
   * entry accounted for the pass.
   */
  function H2cFillOutcome(e: Wqe, room: nat, online: bool): (int, Wqe)
    requires OffsetInside(e.wr.frags, e.cur)
  {
    if room == 0 || !online then (-ENOENT, e)
    else
      var r := H2cPass(e.wr.frags, e.cur, room);
      (if r.failed then -EINVAL else 0, H2cAccounted(e, r))
  }

  /**
   * The result and the entry a streaming-receive fill of e leaves with
   * `room` free cache slots from slot `start`: -ENOENT and no change
   * without room, otherwise what the submission returned and the entry
   * accounted for the pass.
   */
  function C2hFillOutcome(e: Wqe, room: nat, start: nat, submitRet: int): (int, Wqe)
    requires OffsetInside(e.wr.frags, e.cur)
  {
    if room == 0 then (-ENOENT, e)
    else
      var pass := C2hPass(e.wr.frags, e.cur, room);
      (submitRet, C2hAccounted(e, pass.0, pass.1, start))
  }

  /** The engine's mode and what its submit hook answers, fixed while a drain runs. */
  datatype Engine = Engine(st: bool, c2h: bool, online: bool, submitRet: int, sgcLen: nat)

  /** The room fills draw on: free descriptors, free cache slots and the next cache slot. */
  datatype Room = Room(avail: nat, sgcAvail: nat, sgcPidx: nat)

  predicate RoomOk(g: Engine, room: Room)
  {
    room.sgcPidx < g.sgcLen && room.sgcAvail < g.sgcLen
  }

  /**
   * One fill of entry e with the strategy of the engine's mode: the result,
   * the entry as the fill leaves it and the room left. The entry keeps its
   * request and bytes done, keeps its state or becomes pending, and never
   * gains bytes; the room only shrinks, and a fill that succeeds with bytes
   * still left has used some of it.
   */
  ghost function FillOf(g: Engine, e: Wqe, room: Room): (r: (int, Wqe, Room))
    requires CursorOk(e.wr.frags, e.cur) && RoomOk(g, room)
    ensures CursorOk(r.1.wr.frags, r.1.cur) && RoomOk(g, r.2)
    ensures r.1.wr == e.wr && r.1.doneBytes == e.doneBytes && (r.1.state == e.state || r.1.state == Pending)
    ensures r.1.cur.bytes <= e.cur.bytes
    ensures r.2.avail <= room.avail && r.2.sgcAvail <= room.sgcAvail
    ensures r.0 == 0 && r.1.cur.bytes > 0 ==> r.2.avail + r.2.sgcAvail < room.avail + room.sgcAvail
  {
    var frags, c := e.wr.frags, e.cur;
    if !g.st then
      var (ret, e1) := MmFillOutcome(e, room.avail);
      if room.avail == 0 then (ret, e1, room)
      else
        MmPassBounds(frags, c, room.avail, QDMA_DESC_BLEN_MAX);
        var n := |MmPass(frags, c, room.avail, QDMA_DESC_BLEN_MAX).0|;
        var r := (ret, e1, room.(avail := room.avail - n));
        if c.bytes > 0 then MmPassProgress(frags, c, room.avail, QDMA_DESC_BLEN_MAX); r else r
    else if g.c2h then
      var (ret, e1) := C2hFillOutcome(e, room.sgcAvail, room.sgcPidx, g.submitRet);
      if room.sgcAvail == 0 then (ret, e1, room)
      else
        C2hPassBounds(frags, c, room.sgcAvail);
        var n := |C2hPass(frags, c, room.sgcAvail).0|;
        var r := (ret, e1, room.(sgcAvail := room.sgcAvail - n, sgcPidx := RingPos(room.sgcPidx, n, g.sgcLen)));
        if c.bytes > 0 then C2hPassShape(frags, c, room.sgcAvail); r else r
    else
      var (ret, e1) := H2cFillOutcome(e, room.avail, g.online);
      if room.avail == 0 || !g.online then (ret, e1, room)
      else
        H2cPassBounds(frags, c, room.avail);
        H2cPassCursorOk(frags, c, room.avail);
        H2cFailedCursorOk(frags, c, room.avail);
        var n := |H2cPass(frags, c, room.avail).chunks|;
        var r := (ret, e1, room.(avail := room.avail - n));
        if c.bytes > 0 then H2cPassProgress(frags, c, room.avail); r else r
  }

  // ---------------------------------------------------------------------
  // The rings while a fill loop is under way
  // ---------------------------------------------------------------------

  /** The descriptor ring with the chunks cs written from slot p on, flags not yet set. */
  ghost function MmWrites(ring: seq<Desc>, p: nat, cs: seq<Chunk>, c2h: bool): (r: seq<Desc>)
    requires p < |ring|
    ensures |r| == |ring|
  {
    seq(|ring|, j requires 0 <= j < |ring| =>
      var k := RingOffset(p, j, |ring|);
      if k < |cs| then MmDescWrite(ring[j], cs[k], c2h) else ring[j])
  }

  lemma MmWritesExtend(ring: seq<Desc>, p: nat, cs: seq<Chunk>, ch: Chunk, c2h: bool)
    requires p < |ring| && |cs| + 1 < |ring|
    ensures var slot := RingPos(p, |cs|, |ring|);
      var cur := MmWrites(ring, p, cs, c2h);
      cur[slot := MmDescWrite(cur[slot], ch, c2h)] == MmWrites(ring, p, cs + [ch], c2h)
  {
    var slot := RingPos(p, |cs|, |ring|);
    var cur := MmWrites(ring, p, cs, c2h);
    forall j | 0 <= j < |ring|
      ensures cur[slot := MmDescWrite(cur[slot], ch, c2h)][j] == MmWrites(ring, p, cs + [ch], c2h)[j]
    {
      var k := RingOffset(p, j, |ring|);
      if j == slot {
        assert k == |cs|;
      } else {
        assert k != |cs|;
        if k < |cs| { assert (cs + [ch])[k] == cs[k]; }
      }
    }
  }

  /** Setting SOP on the first slot, writing the chunks and setting EOP on the last slot gives MmRing. */
  lemma MmWritesFinish(ring: seq<Desc>, p: nat, cs: seq<Chunk>, c2h: bool)
    requires p < |ring| && |cs| < |ring|
    ensures var last := if cs == [] then p else RingPos(p, |cs| - 1, |ring|);
      var cur := MmWrites(ring[p := ring[p].(sop := true)], p, cs, c2h);
      cur[last := cur[last].(eop := true)] == MmRing(ring, p, cs, c2h)
  {
    var last := if cs == [] then p else RingPos(p, |cs| - 1, |ring|);
    var cur := MmWrites(ring[p := ring[p].(sop := true)], p, cs, c2h);
    forall j | 0 <= j < |ring|
      ensures cur[last := cur[last].(eop := true)][j] == MmRing(ring, p, cs, c2h)[j]
    {
      var k := RingOffset(p, j, |ring|);
      if j == last {
        assert k == (if cs == [] then 0 else |cs| - 1);
      } else {
        assert k != (if cs == [] then 0 else |cs| - 1);
      }
    }
  }

  /**
   * The descriptor ring while a streaming-send loop is under way: the
   * slots less than `flagged` places after p have had their flags set (SOP
   * on the first), and the chunks cs are written from p on.
   */
  ghost function H2cWrites(ring: seq<Desc>, p: nat, cs: seq<Chunk>, flagged: nat, stmEn: bool): (r: seq<Desc>)
    requires p < |ring|
    ensures |r| == |ring|
  {
    seq(|ring|, j requires 0 <= j < |ring| =>
      var k := RingOffset(p, j, |ring|);
      var d := if k < flagged then ring[j].(sop := k == 0, eop := false) else ring[j];
      if k < |cs| then H2cDescWrite(d, cs[k], stmEn) else d)
  }

  lemma H2cWritesStart(ring: seq<Desc>, p: nat, stmEn: bool)
    requires p < |ring|
    ensures ring[p := ring[p].(sop := true, eop := false)] == H2cWrites(ring, p, [], 1, stmEn)
  {
    forall j | 0 <= j < |ring|
      ensures ring[p := ring[p].(sop := true, eop := false)][j] == H2cWrites(ring, p, [], 1, stmEn)[j]
    {
      if j != p { assert RingOffset(p, j, |ring|) != 0; }
    }
  }

  lemma H2cWritesExtend(ring: seq<Desc>, p: nat, cs: seq<Chunk>, ch: Chunk, stmEn: bool)
    requires p < |ring| && |cs| < |ring|
    ensures var slot := RingPos(p, |cs|, |ring|);
      var cur := H2cWrites(ring, p, cs, |cs| + 1, stmEn);
      cur[slot := H2cDescWrite(cur[slot], ch, stmEn)] == H2cWrites(ring, p, cs + [ch], |cs| + 1, stmEn)
  {
    var slot := RingPos(p, |cs|, |ring|);
    var cur := H2cWrites(ring, p, cs, |cs| + 1, stmEn);
    var next := H2cWrites(ring, p, cs + [ch], |cs| + 1, stmEn);
    forall j | 0 <= j < |ring|
      ensures cur[slot := H2cDescWrite(cur[slot], ch, stmEn)][j] == next[j]
    {
      var k := RingOffset(p, j, |ring|);
      if j == slot {
        assert k == |cs|;
      } else {
        assert k != |cs|;
        if k < |cs| { assert (cs + [ch])[k] == cs[k]; }
      }
    }
  }

  lemma H2cWritesOpen(ring: seq<Desc>, p: nat, cs: seq<Chunk>, stmEn: bool)
    requires p < |ring| && 0 < |cs| < |ring|
    ensures var slot := RingPos(p, |cs|, |ring|);
      var cur := H2cWrites(ring, p, cs, |cs|, stmEn);
      cur[slot := cur[slot].(sop := false, eop := false)] == H2cWrites(ring, p, cs, |cs| + 1, stmEn)
  {
    var slot := RingPos(p, |cs|, |ring|);
    var cur := H2cWrites(ring, p, cs, |cs|, stmEn);
    var next := H2cWrites(ring, p, cs, |cs| + 1, stmEn);
    forall j | 0 <= j < |ring|
      ensures cur[slot := cur[slot].(sop := false, eop := false)][j] == next[j]
    {
      if j == slot {
        assert RingOffset(p, j, |ring|) == |cs|;
      } else {
        assert RingOffset(p, j, |ring|) != |cs|;
      }
    }
  }

  /** A failed pass leaves the written chunks and the opened slot after them, and no EOP. */
  lemma H2cWritesFailed(ring: seq<Desc>, p: nat, cs: seq<Chunk>, c: Cursor, stmEn: bool, markEot: bool)
    requires p < |ring| && |cs| < |ring|
    ensures H2cWrites(ring, p, cs, |cs| + 1, stmEn) == H2cRing(ring, p, H2cOutcome(cs, c, true), stmEn, markEot)
  {
    forall j | 0 <= j < |ring|
      ensures H2cWrites(ring, p, cs, |cs| + 1, stmEn)[j] == H2cRing(ring, p, H2cOutcome(cs, c, true), stmEn, markEot)[j]
    {
    }
  }

  /** A pass that succeeded, with EOP (and EOT when marked) set on its last slot, gives H2cRing. */
  lemma H2cWritesFinish(ring: seq<Desc>, p: nat, cs: seq<Chunk>, c: Cursor, stmEn: bool, markEot: bool)
    requires p < |ring| && |cs| < |ring|
    ensures var last := if cs == [] then p else RingPos(p, |cs| - 1, |ring|);
      var cur := H2cWrites(ring, p, cs, if cs == [] then 1 else |cs|, stmEn);
      cur[last := cur[last].(eop := true, eot := if markEot then true else cur[last].eot)]
        == H2cRing(ring, p, H2cOutcome(cs, c, false), stmEn, markEot)
  {
    var last := if cs == [] then p else RingPos(p, |cs| - 1, |ring|);
    var cur := H2cWrites(ring, p, cs, if cs == [] then 1 else |cs|, stmEn);
    forall j | 0 <= j < |ring|
      ensures cur[last := cur[last].(eop := true, eot := if markEot then true else cur[last].eot)][j]
        == H2cRing(ring, p, H2cOutcome(cs, c, false), stmEn, markEot)[j]
    {
      var k := RingOffset(p, j, |ring|);
      if j == last {
        assert k == (if cs == [] then 0 else |cs| - 1);
      } else {
        assert k != (if cs == [] then 0 else |cs| - 1);
      }
    }
  }

  /** Entries of b are those of a, or cancelled ones of a with their unprocessed bytes dropped. */
  ghost predicate SweptFrom(a: seq<Wqe>, b: seq<Wqe>)
  {
    |a| == |b| && forall i :: 0 <= i < |a| ==> b[i] == a[i] || (a[i].state == Canceled && b[i] == Swept(a[i]))
  }

  /** The events after ev0 in evs are all cancelled callbacks. */
  ghost predicate CanceledCallbacks(ev0: seq<Event>, evs: seq<Event>)
  {
    |ev0| <= |evs| && evs[..|ev0|] == ev0 &&
    forall k :: |ev0| <= k < |evs| ==> evs[k].Callback? && evs[k].status == CanceledStatus && evs[k].doneBytes == 0
  }

  /**
   * What the drain may do to the WQE ring: change only entries of the
   * range from u up to f that were not cancelled, and there only their
   * cursor, counters and state, which stays or becomes pending.
   */
  ghost predicate DrainedFrom(a: seq<Wqe>, b: seq<Wqe>, u: nat, f: nat)
    requires u < |a| && f < |a|
  {
    |a| == |b| &&
    forall i :: 0 <= i < |a| ==>
      (|| b[i] == a[i]
       || (&& Live(u, i, f, |a|) && !a[i].state.IsCanceled()
           && (b[i].state == a[i].state || b[i].state == Pending)
           && b[i].wr == a[i].wr && b[i].doneBytes == a[i].doneBytes))
  }

  /** A fill of a live, uncancelled entry i extends what the drain has done so far. */
  lemma DrainedStep(a: seq<Wqe>, b: seq<Wqe>, c: seq<Wqe>, u: nat, f: nat, i: nat)
    requires u < |a| && f < |a| && i < |a| && DrainedFrom(a, b, u, f)
    requires |c| == |b| && Live(u, i, f, |a|) && !b[i].state.IsCanceled()
    requires forall j :: 0 <= j < |b| && j != i ==> c[j] == b[j]
    requires (c[i].state == b[i].state || c[i].state == Pending) && c[i].wr == b[i].wr && c[i].doneBytes == b[i].doneBytes
    ensures DrainedFrom(a, c, u, f)
  {
  }

  /** The drain never changes an entry's request or its bytes done, nor a cancelled entry at all. */
  lemma DrainedKeeps(a: seq<Wqe>, b: seq<Wqe>, u: nat, f: nat, k: nat)
    requires u < |a| && f < |a| && k < |a| && DrainedFrom(a, b, u, f)
    ensures b[k].wr == a[k].wr && b[k].doneBytes == a[k].doneBytes
    ensures a[k].state.IsCanceled() ==> b[k] == a[k]
  {
  }

  /** The sweep never changes an entry's state, request or bytes done. */
  lemma SweptKeeps(a: seq<Wqe>, b: seq<Wqe>, k: nat)
    requires k < |a| && SweptFrom(a, b)
    ensures b[k].state == a[k].state && b[k].wr == a[k].wr && b[k].doneBytes == a[k].doneBytes
  {
  }

  /**
   * The walk over cancelled entries that ends a completion report, on ring
   * a with pending index p and unprocessed index u, from entry cur: it
   * goes on while the entry it is at was cancelled before the engine saw
   * it, and moves to the next pending entry after each. Returns the
   * entries it visits, in order, and the pending index it leaves.
   */
  function CancelWalk(a: seq<Wqe>, p: nat, u: nat, cur: Option<nat>): (r: (seq<nat>, nat))
    requires p < |a| && u < |a| && (cur.Some? ==> cur.value < |a|)
    ensures r.1 < |a|
    ensures forall k :: 0 <= k < |r.0| ==> r.0[k] < |a| && a[r.0[k]].state == Canceled
    decreases RingOffset(p, u, |a|), cur.Some?
  {
    if cur.None? || a[cur.value].state != Canceled then ([], p)
    else if p == u then ([cur.value], p)
    else
      var p1 := NextIdx(p, |a|);
      var rest := CancelWalk(a, p1, u, if p1 == u then None else Some(p1));
      ([cur.value] + rest.0, rest.1)
  }

  /**
   * The walk of a completion report for entry w on ring a, w already
   * retired: it starts at w itself, unless `advance` (the report finished
   * the request, or it had been cancelled in hardware), in which case the
   * pending index steps first and the walk starts at the next pending
   * entry.
   */
  function CompletionWalk(a: seq<Wqe>, w: nat, p: nat, u: nat, advance: bool): (seq<nat>, nat)
    requires w < |a| && p < |a| && u < |a|
  {
    if !advance then CancelWalk(a, p, u, Some(w))
    else if p == u then CancelWalk(a, p, u, None)
    else
      var p1 := NextIdx(p, |a|);
      CancelWalk(a, p1, u, if p1 == u then None else Some(p1))
  }

  /** The callback the walk gives for entry i of ring a: one, unless the request blocks. */
  function CancelEvent(a: seq<Wqe>, i: nat): seq<Event>
    requires i < |a|
  {
    if a[i].wr.block then [] else [Callback(i, 0, CanceledStatus)]
  }

  /** The callbacks of a walk that visits the entries vis of ring a, in order. */
  function CancelEvents(a: seq<Wqe>, vis: seq<nat>): (r: seq<Event>)
    requires forall k :: 0 <= k < |vis| ==> vis[k] < |a|
    ensures forall k :: 0 <= k < |r| ==> r[k].Callback? && r[k].status == CanceledStatus && r[k].doneBytes == 0
  {
    if vis == [] then []
    else CancelEvents(a, vis[..|vis| - 1]) + CancelEvent(a, vis[|vis| - 1])
  }

  /** Ring a after the walk visited the entries vis: each of them has dropped its unprocessed bytes. */
  function SweptAt(a: seq<Wqe>, vis: seq<nat>): (r: seq<Wqe>)
    requires forall k :: 0 <= k < |vis| ==> vis[k] < |a|
    ensures |r| == |a|
    ensures forall j :: 0 <= j < |a| ==> r[j].state == a[j].state && r[j].wr == a[j].wr && r[j].doneBytes == a[j].doneBytes
  {
    if vis == [] then a
    else
      var i, r0 := vis[|vis| - 1], SweptAt(a, vis[..|vis| - 1]);
      r0[i := Swept(r0[i])]
  }

  /** One more entry visited by the walk: its bytes are dropped and its callback follows the others. */
  lemma SweepStep(a: seq<Wqe>, vis: seq<nat>, c: nat)
    requires c < |a| && forall k :: 0 <= k < |vis| ==> vis[k] < |a|
    ensures SweptAt(a, vis + [c]) == SweptAt(a, vis)[c := Swept(SweptAt(a, vis)[c])]
    ensures CancelEvents(a, vis + [c]) == CancelEvents(a, vis) + CancelEvent(a, c)
    ensures CancelEvent(SweptAt(a, vis), c) == CancelEvent(a, c)
  {
    assert (vis + [c])[..|vis|] == vis;
  }

  /**
   * The walk at cancelled entry c goes on from where the pending index
   * steps to: the next pending entry, or nowhere when nothing is pending.
   */
  lemma WalkStep(a: seq<Wqe>, vis: seq<nat>, p: nat, u: nat, c: nat, p1: nat, next: Option<nat>)
    requires p < |a| && u < |a| && c < |a| && a[c].state == Canceled && p1 < |a|
    requires next.Some? ==> next.value < |a|
    requires p == u ==> p1 == p && next == None
    requires p != u ==> p1 == NextIdx(p, |a|) && next == (if p1 == u then None else Some(p1))
    ensures vis + CancelWalk(a, p, u, Some(c)).0 == (vis + [c]) + CancelWalk(a, p1, u, next).0
    ensures CancelWalk(a, p, u, Some(c)).1 == CancelWalk(a, p1, u, next).1
  {
    if p == u {
      assert CancelWalk(a, p1, u, next).0 == [];
    }
  }

  /**
   * The walk that started at `start` with ring a0, pending index p0 and
   * events ev0 has visited the entries vis and is at entry cur with
   * pending index p: the ring is w and the events are e, and the rest of
   * the walk from there completes the whole walk.
   */
  ghost predicate SweepSoFar(a0: seq<Wqe>, p0: nat, u: nat, start: Option<nat>, ev0: seq<Event>,
                             vis: seq<nat>, p: nat, cur: Option<nat>, w: seq<Wqe>, e: seq<Event>)
  {
    && p0 < |a0| && p < |a0| && u < |a0|
    && (start.Some? ==> start.value < |a0|) && (cur.Some? ==> cur.value < |a0|)
    && (forall k :: 0 <= k < |vis| ==> vis[k] < |a0|)
    && CancelWalk(a0, p0, u, start) == (vis + CancelWalk(a0, p, u, cur).0, CancelWalk(a0, p, u, cur).1)
    && w == SweptAt(a0, vis) && e == ev0 + CancelEvents(a0, vis)
  }

  /**
   * One step of the walk that started at `start` with ring a0, pending
   * index p0 and events ev0, at entry c with the entries vis visited so
   * far: once c is swept (ring w to w1, events e to e1) and the pending
   * index has stepped from p to p1, the walk's account runs on from next.
   */
  lemma SweepAdvance(a0: seq<Wqe>, p0: nat, u: nat, start: Option<nat>, ev0: seq<Event>, vis: seq<nat>,
                     p: nat, c: nat, w: seq<Wqe>, e: seq<Event>, p1: nat, next: Option<nat>, w1: seq<Wqe>, e1: seq<Event>)
    requires SweepSoFar(a0, p0, u, start, ev0, vis, p, Some(c), w, e) && a0[c].state == Canceled
    requires p1 < |a0| && (next.Some? ==> next.value < |a0|)
    requires p == u ==> p1 == p && next == None
    requires p != u ==> p1 == NextIdx(p, |a0|) && next == (if p1 == u then None else Some(p1))
    requires w1 == w[c := Swept(w[c])] && e1 == e + CancelEvent(w, c)
    ensures SweepSoFar(a0, p0, u, start, ev0, vis + [c], p1, next, w1, e1)
  {
    SweepStep(a0, vis, c);
    WalkStep(a0, vis, p, u, c, p1, next);
    assert e1 == ev0 + (CancelEvents(a0, vis) + CancelEvent(a0, c));
  }

  /**
   * The walk ends at an entry that was not cancelled before the engine saw
   * it, or at none: what it has visited is then the whole walk.
   */
  lemma SweepDone(a0: seq<Wqe>, p0: nat, u: nat, start: Option<nat>, ev0: seq<Event>, vis: seq<nat>,
                  p: nat, cur: Option<nat>, w: seq<Wqe>, e: seq<Event>)
    requires SweepSoFar(a0, p0, u, start, ev0, vis, p, cur, w, e)
    requires cur.None? || a0[cur.value].state != Canceled
    ensures var walk := CancelWalk(a0, p0, u, start);
      p == walk.1 && w == SweptAt(a0, walk.0) && e == ev0 + CancelEvents(a0, walk.0)
    ensures SweptFrom(a0, w) && CanceledCallbacks(ev0, e)
  {
    assert vis + [] == vis;
    SweptAtFrom(a0, vis);
  }

  /** A walk over cancelled entries only sweeps them. */
  lemma {:induction false} SweptAtFrom(a: seq<Wqe>, vis: seq<nat>)
    requires forall k :: 0 <= k < |vis| ==> vis[k] < |a| && a[vis[k]].state == Canceled
    ensures SweptFrom(a, SweptAt(a, vis))
  {
    if vis != [] {
      SweptAtFrom(a, vis[..|vis| - 1]);
    }
  }

  /** Slot i lies on the way round from slot p up to, but not including, slot f. */
  predicate Live(p: nat, i: nat, f: nat, n: nat)
    requires p < n && i < n && f < n
  {
    RingOffset(p, i, n) < RingOffset(p, f, n)
  }

  /**
   * Every entry of ring a from u0 up to, but not including, u has no bytes
   * left to write or was cancelled: the entries the drain has gone past.
   */
  ghost predicate Passed(a: seq<Wqe>, u0: nat, u: nat)
    requires u0 < |a| && u < |a|
  {
    forall i :: 0 <= i < |a| && RingOffset(u0, i, |a|) < RingOffset(u0, u, |a|) ==>
      a[i].cur.bytes == 0 || a[i].state.IsCanceled()
  }

  /** A change to entry u alone, the one the drain is at, keeps what it has gone past. */
  lemma PassedKeep(a: seq<Wqe>, b: seq<Wqe>, u0: nat, u: nat)
    requires u0 < |a| && u < |a| && |b| == |a| && Passed(a, u0, u)
    requires forall j :: 0 <= j < |a| && j != u ==> b[j] == a[j]
    ensures Passed(b, u0, u)
  {
  }

  /** Stepping the drain over an entry with nothing left, or cancelled, extends what it has gone past. */
  lemma PassedStep(a: seq<Wqe>, u0: nat, u: nat, f: nat)
    requires u0 < |a| && u < |a| && f < |a| && Between(u0, u, f, |a|) && u != f
    requires Passed(a, u0, u) && (a[u].cur.bytes == 0 || a[u].state.IsCanceled())
    ensures Passed(a, u0, NextIdx(u, |a|))
  {
    AdvanceMiddle(u0, u, f, |a|);
  }

  /** Every entry's cursor lies inside its request's fragment list. */
  ghost predicate CursorsOk(a: seq<Wqe>)
  {
    forall i :: 0 <= i < |a| ==> CursorOk(a[i].wr.frags, a[i].cur)
  }

  /**
   * The unprocessed index after `wq_next_unproc` at u: an entry there with
   * nothing left to write, or cancelled, is stepped over once, unless u has
   * reached the free index f.
   */
  function SkipSpent(a: seq<Wqe>, u: nat, f: nat): (r: nat)
    requires u < |a| && f < |a|
    ensures r < |a|
  {
    if u != f && (a[u].cur.bytes == 0 || a[u].state.IsCanceled()) then NextIdx(u, |a|) else u
  }

  /**
   * The drain's loop from unprocessed index u, free index f and `room`:
   * the entry at u is filled unless it was cancelled; a nonzero fill result
   * ends the drain there; otherwise the unprocessed index moves on as
   * `wq_next_unproc` does. Returns the result, the ring, the unprocessed
   * index and the room left.
   */
  ghost function DrainFrom(g: Engine, a: seq<Wqe>, u: nat, f: nat, room: Room): (r: (int, seq<Wqe>, nat, Room))
    requires u < |a| && f < |a| && CursorsOk(a) && RoomOk(g, room)
    decreases RingOffset(u, f, |a|), room.avail + room.sgcAvail
  {
    if u == f then (0, a, u, room)
    else if a[u].state.IsCanceled() then DrainFrom(g, a, NextIdx(u, |a|), f, room)
    else
      var (ret, e1, room1) := FillOf(g, a[u], room);
      var a1 := a[u := e1];
      if ret != 0 then (ret, a1, u, room1)
      else DrainFrom(g, a1, SkipSpent(a1, u, f), f, room1)
  }

  /** `descq_proc_req`: the first step over a spent entry, then the loop. */
  ghost function Drain(g: Engine, a: seq<Wqe>, u: nat, f: nat, room: Room): (r: (int, seq<Wqe>, nat, Room))
    requires u < |a| && f < |a| && CursorsOk(a) && RoomOk(g, room)
  {
    DrainFrom(g, a, SkipSpent(a, u, f), f, room)
  }

  /**
   * The drain from u on ring a with `room` leaves ring b, unprocessed
   * index u1 and room1, whatever it returned.
   */
  ghost predicate DrainLeaves(g: Engine, a: seq<Wqe>, u: nat, f: nat, room: Room, b: seq<Wqe>, u1: nat, room1: Room)
  {
    && u < |a| && f < |a| && CursorsOk(a) && RoomOk(g, room)
    && var d := Drain(g, a, u, f, room);
    d.1 == b && d.2 == u1 && d.3 == room1
  }

  /**
   * Why a fill stops the drain: block mode only for want of descriptors;
   * streaming send for want of descriptors, with the queue offline, or on
   * a misaligned chunk; streaming receive for want of cache slots or with
   * what the submission returned.
   */
  predicate StopReason(g: Engine, ret: int, room: Room)
  {
    if !g.st then ret == -ENOENT && room.avail == 0
    else if g.c2h then (ret == -ENOENT && room.sgcAvail == 0) || ret == g.submitRet
    else (ret == -ENOENT && (room.avail == 0 || !g.online)) || ret == -EINVAL
  }

  /**
   * The drain returns 0 exactly when the unprocessed index reaches the
   * free index, and a nonzero result only for its mode's reason to stop,
   * with the room as the drain leaves it.
   */
  lemma {:induction false} DrainFromStops(g: Engine, a: seq<Wqe>, u: nat, f: nat, room: Room)
    requires u < |a| && f < |a| && CursorsOk(a) && RoomOk(g, room)
    ensures var d := DrainFrom(g, a, u, f, room);
      && (d.0 == 0 <==> d.2 == f)
      && (d.0 != 0 ==> StopReason(g, d.0, d.3))
    decreases RingOffset(u, f, |a|), room.avail + room.sgcAvail
  {
    if u != f {
      if a[u].state.IsCanceled() {
        DrainFromStops(g, a, NextIdx(u, |a|), f, room);
      } else {
        var (ret, e1, room1) := FillOf(g, a[u], room);
        var a1 := a[u := e1];
        if ret == 0 {
          DrainFromStops(g, a1, SkipSpent(a1, u, f), f, room1);
        }
      }
    }
  }

  /** The whole drain stops as its loop does. */
  lemma DrainStops(g: Engine, a: seq<Wqe>, u: nat, f: nat, room: Room)
    requires u < |a| && f < |a| && CursorsOk(a) && RoomOk(g, room)
    ensures var d := Drain(g, a, u, f, room);
      && (d.0 == 0 <==> d.2 == f)
      && (d.0 != 0 ==> StopReason(g, d.0, d.3))
  {
    DrainFromStops(g, a, SkipSpent(a, u, f), f, room);
  }

  /** The drain from u on ring a with `room` ends at goal. */
  ghost predicate DrainsTo(g: Engine, a: seq<Wqe>, u: nat, f: nat, room: Room, goal: (int, seq<Wqe>, nat, Room))
  {
    u < |a| && f < |a| && CursorsOk(a) && RoomOk(g, room) && DrainFrom(g, a, u, f, room) == goal
  }

  /**
   * One round of the drain at u, as the loop body does it: a cancelled
   * entry is left as it is, any other one gets the fill of the engine's
   * mode, giving ret, ring b and room1; when ret is 0 the unprocessed
   * index takes the step of `wq_next_unproc` to u1, otherwise it stays.
   */
  ghost predicate Round(g: Engine, a: seq<Wqe>, u: nat, f: nat, room: Room, ret: int, b: seq<Wqe>, u1: nat, room1: Room)
  {
    && u < |a| && f < |a| && |b| == |a| && CursorOk(a[u].wr.frags, a[u].cur) && RoomOk(g, room)
    && (if a[u].state.IsCanceled() then ret == 0 && b == a && room1 == room
        else (ret, b[u], room1) == FillOf(g, a[u], room) && b == a[u := b[u]])
    && (ret == 0 ==> u1 == SkipSpent(b, u, f))
    && (ret != 0 ==> u1 == u)
  }

  /** A drain whose unprocessed index has reached the free index ends where it is, with 0. */
  lemma DrainsToEnd(g: Engine, a: seq<Wqe>, f: nat, room: Room, goal: (int, seq<Wqe>, nat, Room))
    requires DrainsTo(g, a, f, f, room, goal)
    ensures goal == (0, a, f, room)
  {
  }

  /** A round of the drain keeps where the drain ends, or ends it with the round's result. */
  lemma DrainRound(g: Engine, a: seq<Wqe>, u: nat, f: nat, room: Room, ret: int, b: seq<Wqe>, u1: nat, room1: Room,
                   goal: (int, seq<Wqe>, nat, Room))
    requires DrainsTo(g, a, u, f, room, goal) && u != f && Round(g, a, u, f, room, ret, b, u1, room1)
    ensures ret == 0 ==> DrainsTo(g, b, u1, f, room1, goal)
    ensures ret != 0 ==> goal == (ret, b, u1, room1)
  {
  }

  /**
   * What a completion report for entry w leaves behind, from ring a with
   * pending, unprocessed and free indices p, u, f, free room `room` and
   * events ev: the entry retired, the walk over cancelled entries from
   * where `qdma_wqe_complete` starts it, the retire callbacks followed by
   * the walk's, and the drain from u over the swept ring, with the cache
   * slots the entry gave back; it ends at ring b, pending index p1,
   * unprocessed index u1, room room1 and events ev1.
   */
  ghost predicate CompletionLeaves(g: Engine, a: seq<Wqe>, w: nat, p: nat, u: nat, f: nat, room: Room, ev: seq<Event>,
                                   bytesDone: int, err: int,
                                   b: seq<Wqe>, p1: nat, u1: nat, room1: Room, ev1: seq<Event>)
  {
    && w < |a| && p < |a| && u < |a| && f < |a|
    && var e := a[w];
    var r := a[w := Retired(e, bytesDone, err)];
    var advance := Finishes(e, e.doneBytes + bytesDone, err) || e.state == CanceledHw;
    var walk := CompletionWalk(r, w, p, u, advance);
    && p1 == walk.1
    && ev1 == ev + RetireEvents(w, e, bytesDone, err) + CancelEvents(r, walk.0)
    && DrainedFrom(SweptAt(r, walk.0), b, u, f)
    && DrainLeaves(g, SweptAt(r, walk.0), u, f, Room(room.avail, room.sgcAvail + e.sgcnt, room.sgcPidx), b, u1, room1)
    && u1 < |b| && Between(u, u1, f, |b|) && Passed(b, u, u1)
  }

  /**
   * The retire step of a completion report for entry w, from ring a with
   * pending and unprocessed indices p and u, room `room` and events ev: the
   * entry is retired, its cache slots given back and its callbacks added,
   * and the walk over cancelled entries from `next` with pending index p2
   * is the one `qdma_wqe_complete` starts; it leaves ring r, room room2
   * and events ev2.
   */
  ghost predicate RetireStep(a: seq<Wqe>, w: nat, p: nat, u: nat, room: Room, ev: seq<Event>, bytesDone: int, err: int,
                             next: Option<nat>, r: seq<Wqe>, p2: nat, room2: Room, ev2: seq<Event>)
  {
    && w < |a| && p < |a| && u < |a| && p2 < |a| && (next.Some? ==> next.value < |a|)
    && r == a[w := Retired(a[w], bytesDone, err)]
    && room2 == Room(room.avail, room.sgcAvail + a[w].sgcnt, room.sgcPidx)
    && ev2 == ev + RetireEvents(w, a[w], bytesDone, err)
    && CancelWalk(r, p2, u, next)
       == CompletionWalk(r, w, p, u, Finishes(a[w], a[w].doneBytes + bytesDone, err) || a[w].state == CanceledHw)
  }

  /**
   * The walk over cancelled entries of ring a from `start`, with pending,
   * unprocessed and free indices p, u, f, followed by the drain from u
   * with room `room`: the pending index stops where the walk does, the
   * walk's callbacks follow ev, and the drain over the swept ring leaves
   * ring b, unprocessed index u1, room room1, every entry it went past
   * spent or cancelled.
   */
  ghost predicate SweepLeaves(g: Engine, a: seq<Wqe>, p: nat, u: nat, f: nat, room: Room, ev: seq<Event>, start: Option<nat>,
                              b: seq<Wqe>, p1: nat, u1: nat, room1: Room, ev1: seq<Event>)
  {
    && p < |a| && u < |a| && f < |a| && (start.Some? ==> start.value < |a|)
    && var walk := CancelWalk(a, p, u, start);
    && p1 == walk.1
    && ev1 == ev + CancelEvents(a, walk.0)
    && DrainedFrom(SweptAt(a, walk.0), b, u, f)
    && DrainLeaves(g, SweptAt(a, walk.0), u, f, room, b, u1, room1)
    && u1 < |b| && Between(u, u1, f, |b|) && Passed(b, u, u1)
  }

  /**
   * A completion report is its retire step, which leaves ring r, pending
   * index p2, room room2 and events ev2 and starts the walk at `next`,
   * followed by the walk and the drain from there.
   */
  lemma CompletionHalves(g: Engine, a: seq<Wqe>, w: nat, p: nat, u: nat, f: nat, room: Room, ev: seq<Event>,
                         bytesDone: int, err: int, next: Option<nat>,
                         r: seq<Wqe>, p2: nat, room2: Room, ev2: seq<Event>,
                         b: seq<Wqe>, p1: nat, u1: nat, room1: Room, ev1: seq<Event>)
    requires RetireStep(a, w, p, u, room, ev, bytesDone, err, next, r, p2, room2, ev2)
    requires SweepLeaves(g, r, p2, u, f, room2, ev2, next, b, p1, u1, room1, ev1)
    ensures CompletionLeaves(g, a, w, p, u, f, room, ev, bytesDone, err, b, p1, u1, room1, ev1)
    ensures b[w].wr == a[w].wr && b[w].doneBytes == a[w].doneBytes + bytesDone
    ensures a[w].state.IsCanceled() ==> b[w].state == a[w].state
    ensures CanceledCallbacks(ev + RetireEvents(w, a[w], bytesDone, err), ev1)
  {
    var walk := CancelWalk(r, p2, u, next);
    DrainedKeeps(SweptAt(r, walk.0), b, u, f, w);
  }

  /**
   * The scatter-gather cache while a streaming-receive loop is under way:
   * the pieces ps written from slot p on, each linked to the slot after it.
   */
  ghost function C2hWrites(cache: seq<SgSlot>, p: nat, ps: seq<Piece>): (r: seq<SgSlot>)
    requires p < |cache| && |ps| < |cache|
    ensures |r| == |cache|
  {
    seq(|cache|, j requires 0 <= j < |cache| =>
      var k := RingOffset(p, j, |cache|);
      if k < |ps| then SgSlot(ps[k].page, ps[k].offset, ps[k].len, Some(RingPos(p, k + 1, |cache|)))
      else cache[j])
  }

  lemma C2hWritesStart(cache: seq<SgSlot>, p: nat)
    requires p < |cache|
    ensures C2hWrites(cache, p, []) == cache == C2hCache(cache, p, [])
  {
  }

  /** Filling the next slot with piece q, linked onward or closing the list, extends the pieces by q. */
  lemma C2hWritesExtend(cache: seq<SgSlot>, p: nat, ps: seq<Piece>, q: Piece, last: bool)
    requires p < |cache| && |ps| + 1 < |cache|
    ensures var slot := RingPos(p, |ps|, |cache|);
      var next := RingPos(p, |ps| + 1, |cache|);
      var cur := C2hWrites(cache, p, ps);
      cur[slot := SgSlot(q.page, q.offset, q.len, if last then None else Some(next))]
        == if last then C2hCache(cache, p, ps + [q]) else C2hWrites(cache, p, ps + [q])
  {
    var slot := RingPos(p, |ps|, |cache|);
    var next := RingPos(p, |ps| + 1, |cache|);
    var cur := C2hWrites(cache, p, ps);
    var want := if last then C2hCache(cache, p, ps + [q]) else C2hWrites(cache, p, ps + [q]);
    forall j | 0 <= j < |cache|
      ensures cur[slot := SgSlot(q.page, q.offset, q.len, if last then None else Some(next))][j] == want[j]
    {
      var k := RingOffset(p, j, |cache|);
      if j == slot {
        assert k == |ps|;
      } else {
        assert k != |ps|;
        if k < |ps| { assert (ps + [q])[k] == ps[k]; }
      }
    }
  }

  /**
   * The configuration checks of `qdma_wq_create`, in order: the query
   * must succeed (-EFAULT otherwise); streaming receive needs page-sized
   * buffers; and the ring size must equal its own lowest set bit (-EINVAL
   * otherwise), that is, be a power of two.
   */
  function ConfError(conf: Option<QueueConf>): (r: int)
    ensures r == 0 || r == -EFAULT || r == -EINVAL
    ensures r == -EFAULT <==> conf.None?
    ensures r == 0 <==>
      && conf.Some?
      && !(conf.value.st && conf.value.c2h && conf.value.c2hBufsz != PAGE_SIZE)
      && IsPow2(conf.value.rngsz)
  {
    if conf.None? then -EFAULT
    else
      var c := conf.value;
      if c.st && c.c2h && c.c2hBufsz != PAGE_SIZE then -EINVAL
      else if c.rngsz == 0 then -EINVAL
      else
        LowestSetBitIsSelfIffPow2(c.rngsz);
        if LowestSetBit(c.rngsz) != c.rngsz then -EINVAL else 0
  }

  class WorkQueue {
    // lifecycle flags (`queue->flag`)
    var added: bool
    var started: bool
    var initialized: bool
    /** Whether the WQE ring and the scatter-gather cache are allocated. */
    var wqAllocated: bool
    var cacheAllocated: bool

    // configuration of the engine queue and device
    var st: bool
    var c2h: bool
    var stmEn: bool
    var online: bool

    // the WQE ring
    var qlen: nat
    var wqLen: nat
    var wq: array<Wqe>
    var wqFree: nat
    var wqPending: nat
    var wqUnproc: nat

    // the engine's descriptor ring
    var rngsz: nat
    var desc: array<Desc>
    var pidx: nat
    var avail: nat
    /** The producer index last published to the hardware. */
    var hwPidx: nat
    /** WQEs linked onto the engine's pending list, oldest first. */
    var pendList: seq<nat>

    // the scatter-gather cache of streaming receive
    var sgCache: array<SgSlot>
    var sgcLen: nat
    var sgcPidx: nat
    var sgcAvail: nat

    // statistics
    var reqNum: nat
    var reqNbytes: nat
    var complNum: nat
    var complNbytes: int

    /** Wake-ups and callbacks delivered to callers, in order. */
    var events: seq<Event>
    /** WQEs handed to the engine by the streaming-receive fill. */
    var submitted: seq<nat>
    /** WQEs whose in-flight request was cancelled in hardware. */
    var hwCancels: seq<nat>

    /**
     * A created queue: a power-of-two ring, eight WQEs per descriptor, one
     * cache slot per descriptor, indices in range, the WQE indices in the
     * order pending, unprocessed, free, and every cursor consistent with
     * its request's fragments.
     */
    ghost predicate Valid()
      reads this, wq
    {
      && added && started && initialized && wqAllocated && cacheAllocated
      && IsPow2(rngsz) && qlen == rngsz && wqLen == qlen * 8 && sgcLen == qlen
      && wq.Length == wqLen && desc.Length == rngsz && sgCache.Length == sgcLen
      && wqFree < wqLen && wqPending < wqLen && wqUnproc < wqLen
      && Between(wqPending, wqUnproc, wqFree, wqLen)
      && pidx < rngsz && avail < rngsz
      && sgcPidx < sgcLen && sgcAvail < sgcLen
      && EntriesOk()
    }

    /**
     * The queue once the WQE ring and the cache are allocated: the engine
     * queue added and started, the buffers sized from qlen, and the WQE
     * indices still at the zeroes of the fresh structure.
     */
    ghost predicate Allocated()
      reads this`added, this`started, this`wqAllocated, this`cacheAllocated, this`qlen, this`wqLen, this`sgcLen
      reads this`wq, this`sgCache, this`wqFree, this`wqPending, this`wqUnproc, this`sgcPidx, this`sgcAvail, wq
    {
      && added && started && wqAllocated && cacheAllocated
      && wqLen == qlen * 8 && sgcLen == qlen
      && wq.Length == wqLen && sgCache.Length == sgcLen
      && wqFree == 0 && wqPending == 0 && wqUnproc == 0
      && sgcPidx < sgcLen && sgcAvail < sgcLen
      && EntriesOk()
    }

    /** Every entry's cursor lies inside its request's fragment list. */
    ghost predicate EntriesOk()
      reads this`wq, wq
    {
      forall i :: 0 <= i < wq.Length ==> CursorOk(wq[i].wr.frags, wq[i].cur)
    }

    /**
     * A zero-filled queue structure, before `qdma_wq_create`: no flag set,
     * no buffer, empty WQE indices and statistics.
     */
    predicate Pristine()
      reads this
    {
      && !added && !started && !initialized && !wqAllocated && !cacheAllocated
      && wqFree == 0 && wqPending == 0 && wqUnproc == 0
      && Quiet()
    }

    /** Nothing posted or completed yet: zero statistics and no deliveries. */
    predicate Quiet()
      reads this`reqNum, this`reqNbytes, this`complNum, this`complNbytes, this`events, this`submitted, this`hwCancels
    {
      && reqNum == 0 && reqNbytes == 0 && complNum == 0 && complNbytes == 0
      && events == [] && submitted == [] && hwCancels == []
    }

    /**
     * A queue holding no work: every WQE index at zero, the descriptor
     * ring and the cache empty from slot 0 with one slot kept back, and
     * nothing posted or completed yet. (That the WQE entries are zero-filled
     * is stated by `Allocate`.)
     */
    ghost predicate Idle()
      reads this, wq
    {
      && wqFree == 0 && wqPending == 0 && wqUnproc == 0
      && pidx == 0 && avail == rngsz - 1 && hwPidx == 0 && pendList == []
      && sgcPidx == 0 && sgcAvail == sgcLen - 1
      && Quiet()
    }

    /** A zero-filled queue structure, before `qdma_wq_create`. */
    constructor ()
      ensures Pristine()
    {
      added, started, initialized := false, false, false;
      wqAllocated, cacheAllocated := false, false;
      st, c2h, stmEn, online := false, false, false, false;
      qlen, wqLen := 0, 0;
      wq := new Wqe[0];
      wqFree, wqPending, wqUnproc := 0, 0, 0;
      rngsz := 0;
      desc := new Desc[0];
      pidx, avail, hwPidx, pendList := 0, 0, 0, [];
      sgCache := new SgSlot[0];
      sgcLen, sgcPidx, sgcAvail := 0, 0, 0;
      reqNum, reqNbytes, complNum, complNbytes := 0, 0, 0, 0;
      events, submitted, hwCancels := [], [], [];
    }

    /**
     * `qdma_wq_create`. The engine library's answers are parameters: the
     * results of adding, starting, stopping and removing the engine queue,
     * the configuration it reports (None when the query fails), whether the
     * two buffer allocations succeed, and whether the device runs in stream
     * mode. The queue is added, started and checked; the WQE ring (eight
     * entries per descriptor) and the cache (one slot per descriptor) are
     * allocated; any failure unwinds through Destroy and returns the first
     * error.
     */
    method Create(conf: Option<QueueConf>, addRet: int, startRet: int, allocWq: bool, allocCache: bool,
                  stopRet: int, removeRet: int, stmEnabled: bool) returns (ret: int)
      requires Pristine()
      modifies this
      ensures ret == (if addRet < 0 then addRet
                      else if startRet < 0 then startRet
                      else if ConfError(conf) != 0 then ConfError(conf)
                      else if !allocWq || !allocCache then -ENOMEM
                      else 0)
      ensures ret == 0 ==>
        && Valid() && Idle() && fresh(wq) && fresh(desc) && fresh(sgCache)
        && st == conf.value.st && c2h == conf.value.c2h && stmEn == stmEnabled && online
        && qlen == conf.value.rngsz && wqLen == 8 * qlen
      ensures ret != 0 ==> !initialized
      ensures ret != 0 && stopRet >= 0 && removeRet >= 0 ==>
        !added && !started && !wqAllocated && !cacheAllocated
    {
      ret := Attach(conf, addRet, startRet, stmEnabled);
      if ret == 0 {
        ret := Build(allocWq, allocCache);
      }
      if ret != 0 {
        var unwound := Destroy(stopRet, removeRet);
      }
    }

    /** The allocations and the ring set-up of `qdma_wq_create`, once the queue is attached. */
    method Build(allocWq: bool, allocCache: bool) returns (ret: int)
      requires added && started && !initialized && !wqAllocated && !cacheAllocated
      requires IsPow2(qlen) && wqLen == 8 * qlen
      requires wqFree == 0 && wqPending == 0 && wqUnproc == 0 && Quiet()
      modifies this`wq, this`wqAllocated, this`sgCache, this`cacheAllocated, this`sgcAvail, this`sgcLen, this`sgcPidx
      modifies this`rngsz, this`desc, this`pidx, this`avail, this`hwPidx, this`pendList, this`initialized
      ensures ret == (if allocWq && allocCache then 0 else -ENOMEM)
      ensures ret == 0 ==> Valid() && Idle() && fresh(wq) && fresh(desc) && fresh(sgCache)
      ensures ret != 0 ==> !initialized
    {
      assert qlen > 0;
      ret := Allocate(allocWq, allocCache);
      if ret == 0 {
        Initialize();
      }
    }

    /**
     * The first steps of `qdma_wq_create`: the engine queue is added and
     * started, its configuration queried and checked, and the ring
     * lengths derived from it.
     */
    method Attach(conf: Option<QueueConf>, addRet: int, startRet: int, stmEnabled: bool) returns (ret: int)
      requires !added && !started
      modifies this`added, this`started, this`online, this`st, this`c2h, this`stmEn, this`qlen, this`wqLen
      ensures ret == (if addRet < 0 then addRet else if startRet < 0 then startRet else ConfError(conf))
      ensures added == (addRet >= 0) && started == (addRet >= 0 && startRet >= 0)
      ensures ret == 0 ==>
        && online && st == conf.value.st && c2h == conf.value.c2h && stmEn == stmEnabled
        && qlen == conf.value.rngsz && wqLen == 8 * qlen && IsPow2(qlen)
    {
      if addRet < 0 {
        return addRet;
      }
      added := true;
      if startRet < 0 {
        return startRet;
      }
      started, online := true, true;
      ret := ConfError(conf);
      if ret != 0 {
        return;
      }
      st, c2h, stmEn := conf.value.st, conf.value.c2h, stmEnabled;
      qlen := conf.value.rngsz;
      wqLen := qlen * 8;
    }

    /**
     * The allocations of `qdma_wq_create`: a zero-filled WQE ring, then a
     * zero-filled cache with one slot kept back. Either failing gives
     * -ENOMEM.
     */
    method Allocate(allocWq: bool, allocCache: bool) returns (ret: int)
      requires added && started && !wqAllocated && !cacheAllocated && qlen > 0 && wqLen == 8 * qlen
      requires wqFree == 0 && wqPending == 0 && wqUnproc == 0
      modifies this`wq, this`wqAllocated, this`sgCache, this`cacheAllocated, this`sgcAvail, this`sgcLen, this`sgcPidx
      ensures ret == (if allocWq && allocCache then 0 else -ENOMEM)
      ensures wqAllocated == allocWq && cacheAllocated == (allocWq && allocCache)
      ensures ret == 0 ==>
        && fresh(wq) && wq.Length == wqLen && (forall i :: 0 <= i < wqLen ==> wq[i] == EmptyWqe)
        && Allocated() && fresh(sgCache) && sgCache.Length == qlen
        && sgcLen == qlen && sgcPidx == 0 && sgcAvail == qlen - 1
    {
      if !allocWq {
        return -ENOMEM;
      }
      AllocateRing();
      if !allocCache {
        return -ENOMEM;
      }
      sgCache := new SgSlot[qlen](_ => SgSlot(0, 0, 0, None));
      cacheAllocated := true;
      sgcAvail, sgcLen, sgcPidx := qlen - 1, qlen, 0;
      return 0;
    }

    /** The zero-filled WQE ring of `wq_len` entries (`vzalloc`). */
    method AllocateRing()
      modifies this`wq, this`wqAllocated
      ensures wqAllocated && fresh(wq) && wq.Length == wqLen
      ensures forall i :: 0 <= i < wqLen ==> wq[i] == EmptyWqe
      ensures EntriesOk()
    {
      wq := new Wqe[wqLen](_ => EmptyWqe);
      wqAllocated := true;
    }

    /**
     * The end of `qdma_wq_create`: the engine's descriptor ring as starting
     * the queue leaves it, and the queue marked initialized. The WQE
     * indices and statistics keep the zeroes of the fresh structure.
     */
    method Initialize()
      requires Allocated() && IsPow2(qlen) && Quiet()
      requires sgcPidx == 0 && sgcAvail == qlen - 1
      modifies this`rngsz, this`desc, this`pidx, this`avail, this`hwPidx, this`pendList, this`initialized
      ensures Valid() && Idle() && fresh(desc)
    {
      StartRing();
      initialized := true;
    }

    /**
     * The engine's descriptor ring as starting the queue leaves it: qlen
     * descriptors, producer index 0, all but one slot free, nothing pending.
     */
    method StartRing()
      requires qlen > 0
      modifies this`rngsz, this`desc, this`pidx, this`avail, this`hwPidx, this`pendList
      ensures rngsz == qlen && fresh(desc) && desc.Length == rngsz
      ensures pidx == 0 && avail == rngsz - 1 && hwPidx == 0 && pendList == []
    {
      rngsz := qlen;
      desc := new Desc[rngsz];
      pidx, avail, hwPidx, pendList := 0, rngsz - 1, 0, [];
    }

    /**
     * `qdma_wq_destroy`: stops the engine queue if it was started and
     * removes it if it was added, giving up with the library's error at the
     * first step that fails; otherwise clears the flags and releases the
     * buffers. Every flag whose step succeeded is cleared.
     */
    method Destroy(stopRet: int, removeRet: int) returns (ret: int)
      modifies this`started, this`added, this`initialized, this`wqAllocated, this`cacheAllocated
      ensures var stopFails := old(started) && stopRet < 0;
        var removeFails := !stopFails && old(added) && removeRet < 0;
        && ret == (if stopFails then stopRet else if removeFails then removeRet else 0)
        && started == stopFails
        && added == (old(added) && (stopFails || removeFails))
        && initialized == (old(initialized) && (stopFails || removeFails))
        && wqAllocated == (old(wqAllocated) && (stopFails || removeFails))
        && cacheAllocated == (old(cacheAllocated) && (stopFails || removeFails))
    {
      if started {
        if stopRet < 0 {
          return stopRet;
        }
        started := false;
      }
      if added {
        if removeRet < 0 {
          return removeRet;
        }
        added := false;
      }
      initialized := false;
      wqAllocated, cacheAllocated := false, false;
      return 0;
    }

    /**
     * Block-mode fill of WQE w: one descriptor per chunk of MmPass with the
     * ring's free room, SOP requested on the first slot (and lost when
     * the length is stored), EOP on the last, the producer index published.
     */
    method MmFill(w: nat) returns (ret: int)
      requires Valid() && w < wqLen
      modifies this`pidx, this`avail, this`hwPidx, this`pendList, wq, desc
      ensures Valid()
      ensures forall i :: 0 <= i < wqLen && i != w ==> wq[i] == old(wq[i])
      ensures old(avail) == 0 ==>
        && ret == -ENOENT && pidx == old(pidx) && avail == 0 && hwPidx == old(hwPidx)
        && pendList == old(pendList) && wq[w] == old(wq[w]) && desc[..] == old(desc[..])
      ensures old(avail) > 0 ==>
        var e := old(wq[w]);
        var pass := MmPass(e.wr.frags, e.cur, old(avail), QDMA_DESC_BLEN_MAX);
        && ret == 0
        && avail == old(avail) - |pass.0|
        && RingOffset(old(pidx), pidx, rngsz) == |pass.0|
        && hwPidx == pidx
        && desc[..] == MmRing(old(desc[..]), old(pidx), pass.0, c2h)
        && wq[w] == MmAccounted(e, pass.0, pass.1)
        && pendList == (if pass.0 != [] && e.state != Pending then old(pendList) + [w] else old(pendList))
      ensures ret == 0 && old(wq[w].cur.bytes) > 0 ==> avail < old(avail)
    {
      if avail == 0 {
        return -ENOENT;
      }
      MmFillRoom(w);
      return 0;
    }

    /** The block-mode fill of WQE w once the ring has free room. */
    method MmFillRoom(w: nat)
      requires Valid() && w < wqLen && avail > 0
      modifies this`pidx, this`avail, this`hwPidx, this`pendList, wq, desc
      ensures Valid()
      ensures forall i :: 0 <= i < wqLen && i != w ==> wq[i] == old(wq[i])
      ensures var e := old(wq[w]);
        var pass := MmPass(e.wr.frags, e.cur, old(avail), QDMA_DESC_BLEN_MAX);
        && avail == old(avail) - |pass.0|
        && RingOffset(old(pidx), pidx, rngsz) == |pass.0|
        && hwPidx == pidx
        && desc[..] == MmRing(old(desc[..]), old(pidx), pass.0, c2h)
        && wq[w] == MmAccounted(e, pass.0, pass.1)
        && pendList == (if pass.0 != [] && e.state != Pending then old(pendList) + [w] else old(pendList))
        && (e.cur.bytes > 0 ==> avail < old(avail))
    {
      var e := wq[w];
      var c, total, descNr, stopped, cs := MmWriteRing(e.wr.frags, e.cur);
      ghost var p1, d1 := pidx, desc[..];
      Account(w, c, descNr, total, stopped);
      assert pidx == p1 && desc[..] == d1;
      RingPosOffset(old(pidx), |cs|, rngsz);
      Publish();
    }

    /** Writes the producer index to the hardware (`descq_h2c_pidx_update` or `descq_c2h_pidx_update`). */
    method Publish()
      requires Valid()
      modifies this`hwPidx
      ensures Valid() && hwPidx == pidx
    {
      hwPidx := pidx;
    }

    /**
     * The WQE bookkeeping at the end of a block-mode or streaming-send
     * pass: the cursor and descriptor count are stored; a pass that wrote
     * descriptors adds its bytes to the request and links a request that
     * was not pending yet onto the pending list.
     */
    method Account(w: nat, c: Cursor, descNr: nat, total: nat, wrote: bool)
      requires Valid() && w < wqLen && CursorOk(wq[w].wr.frags, c)
      modifies wq, this`pendList
      ensures Valid()
      ensures forall i :: 0 <= i < wqLen && i != w ==> wq[i] == old(wq[i])
      ensures var e := old(wq[w]).(cur := c, descNr := descNr);
        wq[w] == if wrote then Accrue(e, total) else e
      ensures pendList == if wrote && old(wq[w]).state != Pending then old(pendList) + [w] else old(pendList)
    {
      var e := wq[w].(cur := c, descNr := descNr);
      if wrote {
        if e.state != Pending {
          pendList := pendList + [w];
        }
        e := Accrue(e, total);
      }
      wq[w] := e;
      assert forall i :: 0 <= i < wqLen ==> wq[i] == if i == w then e else old(wq[i]);
    }

    /**
     * The descriptors of one block-mode pass: SOP requested on the slot at
     * the producer index, the chunks written from there on, EOP on the
     * last slot written.
     */
    method MmWriteRing(frags: seq<Fragment>, c0: Cursor)
      returns (cur: Cursor, total: nat, descNr: nat, stopped: bool, ghost cs: seq<Chunk>)
      requires CursorOk(frags, c0) && desc.Length == rngsz && pidx < rngsz && 0 < avail < rngsz
      modifies desc, this`pidx, this`avail
      ensures (cs, cur) == MmPass(frags, c0, old(avail), QDMA_DESC_BLEN_MAX)
      ensures |cs| <= old(avail) && avail == old(avail) - |cs| && pidx == RingPos(old(pidx), |cs|, rngsz)
      ensures CursorOk(frags, cur) && (c0.bytes > 0 ==> cs != [])
      ensures total == SumLen(cs) && descNr == |cs| && (stopped <==> cs != [])
      ensures desc[..] == MmRing(old(desc[..]), old(pidx), cs, c2h)
    {
      ghost var p0, d0 := pidx, desc[..];
      desc[pidx] := desc[pidx].(sop := true);
      ghost var d1 := desc[..];
      assert d1 == d0[p0 := d0[p0].(sop := true)];
      var slot;
      cur, total, descNr, slot, stopped, cs := MmChunks(frags, c0);
      MmWritesFinish(d0, p0, cs, c2h);
      desc[slot] := desc[slot].(eop := true);
    }

    /** Writes one block-mode chunk at the producer index and advances it. */
    method PutMmDesc(ch: Chunk, ghost d0: seq<Desc>, ghost p0: nat, ghost cs: seq<Chunk>)
      requires desc.Length == rngsz == |d0| && p0 < rngsz && |cs| + 1 < rngsz && 0 < avail
      requires pidx == RingPos(p0, |cs|, rngsz) && desc[..] == MmWrites(d0, p0, cs, c2h)
      modifies desc, this`pidx, this`avail
      ensures desc[..] == MmWrites(d0, p0, cs + [ch], c2h)
      ensures pidx == RingPos(p0, |cs| + 1, rngsz) && avail == old(avail) - 1
    {
      MmWritesExtend(d0, p0, cs, ch, c2h);
      desc[pidx] := MmDescWrite(desc[pidx], ch, c2h);
      pidx := NextIdx(pidx, rngsz);
      avail := avail - 1;
    }

    /**
     * The descriptor loop of the block-mode fill: from the producer index
     * on, one descriptor per chunk of MmPass, stopping when the request or
     * the free room is used up. Returns the cursor left behind, the bytes
     * and descriptors written, the last slot written (the first one when
     * none was) and whether the loop stopped by running out.
     */
    method MmChunks(frags: seq<Fragment>, c0: Cursor)
      returns (cur: Cursor, total: nat, descNr: nat, slot: nat, stopped: bool, ghost cs: seq<Chunk>)
      requires CursorOk(frags, c0) && desc.Length == rngsz && pidx < rngsz && 0 < avail < rngsz
      modifies desc, this`pidx, this`avail
      ensures (cs, cur) == MmPass(frags, c0, old(avail), QDMA_DESC_BLEN_MAX)
      ensures |cs| <= old(avail) && avail == old(avail) - |cs| && pidx == RingPos(old(pidx), |cs|, rngsz)
      ensures CursorOk(frags, cur) && (c0.bytes > 0 ==> cs != [])
      ensures total == SumLen(cs) && descNr == |cs| && (stopped <==> cs != [])
      ensures slot == if cs == [] then old(pidx) else RingPos(old(pidx), |cs| - 1, rngsz)
      ensures desc[..] == MmWrites(old(desc[..]), old(pidx), cs, c2h)
    {
      ghost var p0, room, d0 := pidx, avail, desc[..];
      slot, cur := pidx, c0;
      total, descNr, stopped, cs := 0, 0, false, [];
      while 0 < cur.sgNum && !stopped
        invariant CursorOk(frags, cur) && descNr == |cs| && avail == room - |cs|
        invariant MmRun(frags, cur, avail, QDMA_DESC_BLEN_MAX, cs) == MmRun(frags, c0, room, QDMA_DESC_BLEN_MAX, [])
        invariant stopped <==> cs != [] && (cur.bytes == 0 || avail == 0)
        invariant pidx == RingPos(p0, |cs|, rngsz)
        invariant slot == if stopped then RingPos(p0, |cs| - 1, rngsz) else pidx
        invariant total == SumLen(cs)
        invariant desc[..] == MmWrites(d0, p0, cs, c2h)
        decreases avail
      {
        // the rest of the fragment from the resume offset, clamped to the
        // request and to one descriptor's length
        var (ch, c1) := Step(frags, cur, QDMA_DESC_BLEN_MAX);
        StepFacts(frags, cur, QDMA_DESC_BLEN_MAX);
        PutMmDesc(ch, d0, p0, cs);
        descNr := descNr + 1;
        total := total + ch.len;
        SumLenAppend(cs, [ch]);
        cs := cs + [ch];
        cur := c1;
        stopped := cur.bytes == 0 || avail == 0;
        slot := if stopped then slot else pidx;
      }
      if !stopped && cs != [] {
        BytesLeftMeansFragmentLeft(frags, cur);
      }
      if c0.bytes > 0 {
        MmPassProgress(frags, c0, room, QDMA_DESC_BLEN_MAX);
      }
      MmRunIsPass(frags, c0, room, QDMA_DESC_BLEN_MAX, []);
      assert [] + MmPass(frags, c0, room, QDMA_DESC_BLEN_MAX).0 == MmPass(frags, c0, room, QDMA_DESC_BLEN_MAX).0;
    }

    /**
     * Streaming-receive fill of WQE w: the request's fragments from its
     * cursor on, one cache slot each (the first from the stored offset,
     * each clamped to the bytes left), chained in order, the last one
     * closing the list; the WQE becomes pending with its list starting at
     * the old cache producer index, and when slots were filled its count
     * and slot number are stored. The request is then handed to the engine;
     * `submitRet` is what that submission returns.
     */
    method C2hFill(w: nat, submitRet: int) returns (ret: int)
      requires Valid() && w < wqLen
      modifies this`sgcPidx, this`sgcAvail, this`submitted, wq, sgCache
      ensures Valid()
      ensures forall i :: 0 <= i < wqLen && i != w ==> wq[i] == old(wq[i])
      ensures old(sgcAvail) == 0 ==>
        && ret == -ENOENT && sgcPidx == old(sgcPidx) && sgcAvail == 0 && submitted == old(submitted)
        && wq[w] == old(wq[w]) && sgCache[..] == old(sgCache[..])
      ensures old(sgcAvail) > 0 ==>
        var e := old(wq[w]);
        var pass := C2hPass(e.wr.frags, e.cur, old(sgcAvail));
        && ret == submitRet
        && sgcAvail == old(sgcAvail) - |pass.0|
        && RingOffset(old(sgcPidx), sgcPidx, sgcLen) == |pass.0|
        && sgCache[..] == C2hCache(old(sgCache[..]), old(sgcPidx), pass.0)
        && wq[w] == C2hAccounted(e, pass.0, pass.1, old(sgcPidx))
        && submitted == old(submitted) + [w]
      ensures old(sgcAvail) > 0 && old(wq[w].cur.bytes) > 0 ==> sgcAvail < old(sgcAvail)
    {
      if sgcAvail == 0 {
        return -ENOENT;
      }
      var e := wq[w].(sgl := sgcPidx, state := Pending);
      var c, total, cnt := C2hSlots(e.wr.frags, e.cur);
      e := e.(cur := c);
      if cnt > 0 {
        e := e.(count := total, sgcnt := cnt);
      }
      wq[w] := e;
      assert forall i :: 0 <= i < wqLen ==> wq[i] == if i == w then e else old(wq[i]);
      submitted := submitted + [w];
      return submitRet;
    }

    /**
     * The cache slots of one streaming-receive pass, filled from the cache
     * producer index on; returns the cursor after the pass, the bytes the
     * slots hold and how many there are.
     */
    method C2hSlots(frags: seq<Fragment>, c0: Cursor) returns (cur: Cursor, total: nat, cnt: nat)
      requires CursorOk(frags, c0) && sgCache.Length == sgcLen && sgcPidx < sgcLen && 0 < sgcAvail < sgcLen
      modifies sgCache, this`sgcPidx, this`sgcAvail
      ensures var pass := C2hPass(frags, c0, old(sgcAvail));
        && cur == pass.1 && total == SumPieces(pass.0) && cnt == |pass.0|
        && sgcAvail == old(sgcAvail) - |pass.0| && sgcPidx < sgcLen
        && RingOffset(old(sgcPidx), sgcPidx, sgcLen) == |pass.0|
        && sgCache[..] == C2hCache(old(sgCache[..]), old(sgcPidx), pass.0)
      ensures CursorOk(frags, cur)
      ensures c0.bytes > 0 ==> cnt > 0
    {
      ghost var p0, room, d0 := sgcPidx, sgcAvail, sgCache[..];
      ghost var ps: seq<Piece> := [];
      if c0.bytes > 0 {
        C2hPassShape(frags, c0, room);
      }
      C2hRunFromStart(frags, c0, room);
      C2hWritesStart(d0, p0);
      cur, total, cnt := c0, 0, 0;
      while true
        invariant CursorOk(frags, cur) && 0 < sgcAvail
        invariant cnt == |ps| && sgcAvail == room - |ps|
        invariant C2hRun(frags, cur, sgcAvail, ps) == C2hPass(frags, c0, room)
        invariant ps != [] ==> cur.bytes > 0 && cur.sg < |frags|
        invariant sgcPidx == RingPos(p0, |ps|, sgcLen)
        invariant total == SumPieces(ps)
        invariant sgCache[..] == C2hWrites(d0, p0, ps)
        decreases sgcAvail
      {
        if cur.sgNum == 0 {
          RingPosOffset(p0, |ps|, sgcLen);
          return;
        }
        var (q, c1) := C2hStep(frags, cur);
        C2hStepFacts(frags, cur);
        var last := c1.bytes == 0 || sgcAvail == 1;
        PutC2hSlot(q, last, d0, p0, ps);
        cnt := cnt + 1;
        total := total + q.len;
        SumPiecesAppend(ps, [q]);
        ps := ps + [q];
        cur := c1;
        if last {
          RingPosOffset(p0, |ps|, sgcLen);
          return;
        }
        BytesLeftMeansFragmentLeft(frags, cur);
      }
    }

    /**
     * Fills the cache slot at the producer index with piece q and advances
     * the index; the slot links to the next one unless it is the last.
     */
    method PutC2hSlot(q: Piece, last: bool, ghost d0: seq<SgSlot>, ghost p0: nat, ghost ps: seq<Piece>)
      requires sgCache.Length == sgcLen == |d0| && p0 < sgcLen && |ps| + 1 < sgcLen && 0 < sgcAvail
      requires sgcPidx == RingPos(p0, |ps|, sgcLen) && sgCache[..] == C2hWrites(d0, p0, ps)
      modifies sgCache, this`sgcPidx, this`sgcAvail
      ensures sgCache[..] == if last then C2hCache(d0, p0, ps + [q]) else C2hWrites(d0, p0, ps + [q])
      ensures sgcPidx == RingPos(p0, |ps| + 1, sgcLen) && sgcAvail == old(sgcAvail) - 1
    {
      C2hWritesExtend(d0, p0, ps, q, last);
      var slot := sgcPidx;
      sgcPidx := NextIdx(sgcPidx, sgcLen);
      sgcAvail := sgcAvail - 1;
      sgCache[slot] := SgSlot(q.page, q.offset, q.len, if last then None else Some(sgcPidx));
    }

    /**
     * Streaming-send fill of WQE w: page-sized chunks from the producer
     * index on, SOP on the first slot, flags cleared on the following ones,
     * EOP on the last, and EOT there when the engine has streaming flags and
     * the request is used up and marked end-of-transfer. A misaligned chunk
     * makes the fill return -EINVAL with the slots written so far left in
     * place and the request's offset and bytes as far as they had got.
     */
    method H2cFill(w: nat) returns (ret: int)
      requires Valid() && w < wqLen
      modifies this`pidx, this`avail, this`hwPidx, this`pendList, wq, desc
      ensures Valid()
      ensures forall i :: 0 <= i < wqLen && i != w ==> wq[i] == old(wq[i])
      ensures old(avail) == 0 || !online ==>
        && ret == -ENOENT && pidx == old(pidx) && avail == old(avail) && hwPidx == old(hwPidx)
        && pendList == old(pendList) && wq[w] == old(wq[w]) && desc[..] == old(desc[..])
      ensures old(avail) > 0 && online ==>
        var e := old(wq[w]);
        var r := H2cPass(e.wr.frags, e.cur, old(avail));
        && avail == old(avail) - |r.chunks|
        && RingOffset(old(pidx), pidx, rngsz) == |r.chunks|
        && desc[..] == H2cRing(old(desc[..]), old(pidx), r, stmEn, stmEn && r.cur.bytes == 0 && e.wr.eot)
        && wq[w] == H2cAccounted(e, r)
        && (r.failed ==> ret == -EINVAL && hwPidx == old(hwPidx) && pendList == old(pendList))
        && (!r.failed ==>
              && ret == 0 && hwPidx == pidx
              && pendList == (if e.state != Pending then old(pendList) + [w] else old(pendList)))
      ensures ret == 0 && old(wq[w].cur.bytes) > 0 ==> avail < old(avail)
    {
      if avail == 0 || !online {
        return -ENOENT;
      }
      var e := wq[w];
      var stored, total, descNr, failed := H2cWriteRing(e.wr.frags, e.cur, e.wr.eot);
      Account(w, stored, descNr, total, !failed);
      if failed {
        return -EINVAL;
      }
      Publish();
      return 0;
    }

    /**
     * The descriptors of one streaming-send pass, the SOP of the first
     * slot, and on success the EOP (and EOT when marked) of the last slot.
     * Returns the cursor to store in the WQE: on failure only the offset
     * and the bytes have been stored through it.
     */
    method H2cWriteRing(frags: seq<Fragment>, c0: Cursor, eot: bool)
      returns (stored: Cursor, total: nat, descNr: nat, failed: bool)
      requires CursorOk(frags, c0) && desc.Length == rngsz && pidx < rngsz && 0 < avail < rngsz
      modifies desc, this`pidx, this`avail
      ensures var r := H2cPass(frags, c0, old(avail));
        && failed == r.failed && descNr == |r.chunks|
        && stored == (if r.failed then c0.(sgOff := r.cur.sgOff, bytes := r.cur.bytes) else r.cur)
        && total == (if r.failed then 0 else SumLen(r.chunks))
        && avail == old(avail) - |r.chunks| && pidx < rngsz && RingOffset(old(pidx), pidx, rngsz) == |r.chunks|
        && desc[..] == H2cRing(old(desc[..]), old(pidx), r, stmEn, stmEn && r.cur.bytes == 0 && eot)
      ensures CursorOk(frags, stored)
      ensures !failed && c0.bytes > 0 ==> avail < old(avail)
    {
      var p0 := pidx;
      ghost var d0 := desc[..];
      var cur;
      ghost var cs;
      cur, total, descNr, failed, cs := H2cChunks(frags, c0);
      RingPosOffset(p0, |cs|, rngsz);
      var markEot := stmEn && cur.bytes == 0 && eot;
      if failed {
        H2cFailedCursorOk(frags, c0, old(avail));
        H2cWritesFailed(d0, p0, cs, cur, stmEn, markEot);
        stored, total := c0.(sgOff := cur.sgOff, bytes := cur.bytes), 0;
        return;
      }
      stored := cur;
      H2cWritesFinish(d0, p0, cs, cur, stmEn, markEot);
      var last := if descNr == 0 then p0 else RingPos(p0, descNr - 1, rngsz);
      desc[last] := desc[last].(eop := true, eot := if markEot then true else desc[last].eot);
    }

    /**
     * Writes one streaming-send chunk at the producer index (its flags
     * already set) and advances it; unless this is the last chunk of the
     * pass, the flags of the next slot are cleared for the next chunk.
     */
    method PutH2cDesc(ch: Chunk, last: bool, ghost d0: seq<Desc>, ghost p0: nat, ghost cs: seq<Chunk>)
      requires desc.Length == rngsz == |d0| && p0 < rngsz && |cs| + 1 < rngsz && 0 < avail
      requires pidx == RingPos(p0, |cs|, rngsz) && desc[..] == H2cWrites(d0, p0, cs, |cs| + 1, stmEn)
      modifies desc, this`pidx, this`avail
      ensures desc[..] == H2cWrites(d0, p0, cs + [ch], if last then |cs| + 1 else |cs| + 2, stmEn)
      ensures pidx == RingPos(p0, |cs| + 1, rngsz) && avail == old(avail) - 1
    {
      H2cWritesExtend(d0, p0, cs, ch, stmEn);
      desc[pidx] := H2cDescWrite(desc[pidx], ch, stmEn);
      pidx := NextIdx(pidx, rngsz);
      avail := avail - 1;
      if !last {
        H2cWritesOpen(d0, p0, cs + [ch], stmEn);
        desc[pidx] := desc[pidx].(sop := false, eop := false);
      }
    }

    /**
     * One aligned chunk ch of the streaming-send loop, taken at cursor c
     * (Step gave ch and c1): its descriptor is written and the loop's
     * cursor, byte total and chunks move past it.
     */
    method H2cTake(frags: seq<Fragment>, c: Cursor, total: nat, ch: Chunk, c1: Cursor, last: bool,
                   ghost d0: seq<Desc>, ghost p0: nat, ghost cs: seq<Chunk>)
      returns (cur: Cursor, total1: nat, ghost cs1: seq<Chunk>)
      requires CursorOk(frags, c) && c.sgNum != 0 && 0 < avail && (cs == [] || c.bytes > 0)
      requires Step(frags, c, PAGE_SIZE) == (ch, c1) && !Misaligned(frags, c, ch) && last == (c1.bytes == 0 || avail == 1)
      requires desc.Length == rngsz == |d0| && p0 < rngsz && |cs| + 1 < rngsz
      requires pidx == RingPos(p0, |cs|, rngsz) && total == SumLen(cs) && desc[..] == H2cWrites(d0, p0, cs, |cs| + 1, stmEn)
      modifies desc, this`pidx, this`avail
      ensures cs1 == cs + [ch] && cur == c1.(epAddr := c.epAddr) && CursorOk(frags, cur) && total1 == SumLen(cs1)
      ensures H2cRun(frags, c, old(avail), cs) == (if last then H2cOutcome(cs1, cur, false) else H2cRun(frags, cur, avail, cs1))
      ensures !last ==> cur.bytes > 0 && 0 < avail
      ensures avail == old(avail) - 1 && pidx == RingPos(p0, |cs1|, rngsz)
      ensures desc[..] == H2cWrites(d0, p0, cs1, if last then |cs1| else |cs1| + 1, stmEn)
    {
      StepFacts(frags, c, PAGE_SIZE);
      H2cRunStep(frags, c, avail, cs);
      PutH2cDesc(ch, last, d0, p0, cs);
      total1 := total + ch.len;
      SumLenAppend(cs, [ch]);
      cs1 := cs + [ch];
      cur := c1.(epAddr := c.epAddr);
    }

    /**
     * The descriptor loop of the streaming-send fill: SOP on the slot at
     * the producer index, then one descriptor per chunk of H2cPass, the
     * flags of each following slot cleared before it is written; stops when
     * the request or the free room is used up, or fails on a misaligned
     * chunk before writing it.
     */
    method H2cChunks(frags: seq<Fragment>, c0: Cursor)
      returns (cur: Cursor, total: nat, descNr: nat, failed: bool, ghost cs: seq<Chunk>)
      requires CursorOk(frags, c0) && desc.Length == rngsz && pidx < rngsz && 0 < avail < rngsz
      modifies desc, this`pidx, this`avail
      ensures H2cOutcome(cs, cur, failed) == H2cPass(frags, c0, old(avail))
      ensures !failed ==> CursorOk(frags, cur) && (c0.bytes > 0 ==> cs != [])
      ensures |cs| <= old(avail) && avail == old(avail) - |cs| && pidx == RingPos(old(pidx), |cs|, rngsz)
      ensures total == SumLen(cs) && descNr == |cs|
      ensures desc[..] == H2cWrites(old(desc[..]), old(pidx), cs, if !failed && cs != [] then |cs| else |cs| + 1, stmEn)
    {
      ghost var p0, room, d0 := pidx, avail, desc[..];
      H2cRunFromStart(frags, c0, room);
      H2cWritesStart(d0, p0, stmEn);
      desc[pidx] := desc[pidx].(sop := true, eop := false);
      cur, total, descNr, failed, cs := c0, 0, 0, false, [];
      while true
        invariant CursorOk(frags, cur) && 0 < avail
        invariant descNr == |cs| && avail == room - |cs|
        invariant H2cRun(frags, cur, avail, cs) == H2cPass(frags, c0, room)
        invariant cs != [] ==> cur.bytes > 0
        invariant pidx == RingPos(p0, |cs|, rngsz)
        invariant total == SumLen(cs)
        invariant desc[..] == H2cWrites(d0, p0, cs, |cs| + 1, stmEn)
        decreases avail
      {
        if cur.sgNum == 0 {
          if c0.bytes > 0 {
            BytesLeftMeansFragmentLeft(frags, c0);
          }
          return;
        }
        var (ch, c1) := Step(frags, cur, PAGE_SIZE);
        StepFacts(frags, cur, PAGE_SIZE);
        if Misaligned(frags, cur, ch) {
          // the slot at the producer index keeps the flags it was given
          failed := true;
          cur := cur.(sgOff := c1.sgOff);
          return;
        }
        var last := c1.bytes == 0 || avail == 1;
        cur, total, cs := H2cTake(frags, cur, total, ch, c1, last, d0, p0, cs);
        descNr := descNr + 1;
        if last {
          return;
        }
      }
    }

    /** Stores entry e in slot i of the WQE ring. */
    method SetEntry(i: nat, e: Wqe)
      requires Valid() && i < wqLen && CursorOk(e.wr.frags, e.cur)
      modifies wq
      ensures Valid() && wq[..] == old(wq[..])[i := e]
    {
      wq[i] := e;
    }

    // -------------------------------------------------------------------
    // The WQE ring indices (the helpers of the work-queue header)
    // -------------------------------------------------------------------

    /**
     * The entry to fill next: none when the unprocessed index has reached
     * the free index; an entry at the unprocessed index whose bytes are all
     * written, or that was cancelled, is stepped over once first.
     */
    method NextUnproc() returns (w: Option<nat>)
      requires Valid()
      modifies this`wqUnproc
      ensures Valid()
      ensures Between(old(wqUnproc), wqUnproc, wqFree, wqLen)
      ensures w.Some? ==> w.value == wqUnproc && wqUnproc != wqFree
      ensures w.None? ==> wqUnproc == wqFree
      ensures var u := old(wqUnproc);
        if u != wqFree && (wq[u].cur.bytes == 0 || wq[u].state.IsCanceled()) then wqUnproc == NextIdx(u, wqLen)
        else wqUnproc == u
      ensures wqUnproc == old(wqUnproc) || RingOffset(wqUnproc, wqFree, wqLen) < RingOffset(old(wqUnproc), wqFree, wqLen)
      ensures wqUnproc == old(wqUnproc) && wqUnproc != wqFree ==>
        wq[wqUnproc].cur.bytes > 0 && !wq[wqUnproc].state.IsCanceled()
      ensures wqUnproc == SkipSpent(wq[..], old(wqUnproc), wqFree)
    {
      if wqUnproc == wqFree {
        return None;
      }
      var e := wq[wqUnproc];
      if e.cur.bytes == 0 || e.state.IsCanceled() {
        AdvanceMiddle(wqPending, wqUnproc, wqFree, wqLen);
        wqUnproc := NextIdx(wqUnproc, wqLen);
        if wqUnproc == wqFree {
          return None;
        }
      }
      return Some(wqUnproc);
    }

    /**
     * The entry after the one just retired: none when nothing is pending;
     * otherwise the pending index steps forward, and the entry there is
     * returned unless that reaches the unprocessed index.
     */
    method NextPending() returns (w: Option<nat>)
      requires Valid()
      modifies this`wqPending
      ensures Valid()
      ensures old(wqPending) == wqUnproc ==> wqPending == old(wqPending) && w == None
      ensures old(wqPending) != wqUnproc ==>
        && wqPending == NextIdx(old(wqPending), wqLen)
        && RingOffset(wqPending, wqUnproc, wqLen) == RingOffset(old(wqPending), wqUnproc, wqLen) - 1
        && w == (if wqPending == wqUnproc then None else Some(wqPending))
    {
      if wqPending == wqUnproc {
        return None;
      }
      AdvanceFirst(wqPending, wqUnproc, wqFree, wqLen);
      wqPending := NextIdx(wqPending, wqLen);
      return if wqPending == wqUnproc then None else Some(wqPending);
    }

    /**
     * A free entry for a new request: none when the ring is full (one slot
     * is always left between the free and the pending index); otherwise the
     * entry at the free index, which steps forward.
     */
    method NextFree() returns (w: Option<nat>)
      requires Valid()
      modifies this`wqFree
      ensures Valid()
      ensures NextIdx(old(wqFree), wqLen) == wqPending ==> wqFree == old(wqFree) && w == None
      ensures NextIdx(old(wqFree), wqLen) != wqPending ==>
        wqFree == NextIdx(old(wqFree), wqLen) && w == Some(old(wqFree))
    {
      var next := NextIdx(wqFree, wqLen);
      if next == wqPending {
        return None;
      }
      AdvanceLast(wqPending, wqUnproc, wqFree, wqLen);
      w := Some(wqFree);
      wqFree := next;
    }

    /**
     * The most recently posted non-blocking request still in the ring
     * (from the pending index up to the free index), if there is one.
     */
    method LastNonblock() returns (w: Option<nat>)
      requires Valid()
      ensures w.Some? ==>
        && w.value < wqLen && Live(wqPending, w.value, wqFree, wqLen) && !wq[w.value].wr.block
        && (forall j ::
              (0 <= j < wqLen && Live(wqPending, j, wqFree, wqLen) &&
               RingOffset(wqPending, j, wqLen) > RingOffset(wqPending, w.value, wqLen)) ==> wq[j].wr.block)
      ensures w.None? ==> forall j :: 0 <= j < wqLen && Live(wqPending, j, wqFree, wqLen) ==> wq[j].wr.block
    {
      var k := RingOffset(wqPending, wqFree, wqLen);
      while k > 0
        invariant k <= RingOffset(wqPending, wqFree, wqLen)
        invariant forall j :: 0 <= j < wqLen && k <= RingOffset(wqPending, j, wqLen) < RingOffset(wqPending, wqFree, wqLen) ==>
          wq[j].wr.block
      {
        var i := RingPos(wqPending, k - 1, wqLen);
        RingPosOffset(wqPending, k - 1, wqLen);
        if !wq[i].wr.block {
          return Some(i);
        }
        k := k - 1;
      }
      return None;
    }

    // -------------------------------------------------------------------
    // Draining, completion, cancellation and posting
    // -------------------------------------------------------------------

    /** The engine's mode, with `submitRet` as its submit hook's answer. */
    ghost function Eng(submitRet: int): Engine
      reads this
    {
      Engine(st, c2h, online, submitRet, sgcLen)
    }

    /** The room the fills draw on. */
    ghost function FreeRoom(): Room
      reads this
    {
      Room(avail, sgcAvail, sgcPidx)
    }

    /**
     * What any fill of entry w does, seen from the drain: no other entry
     * changes; entry w keeps its request and bytes done, keeps its state or
     * becomes pending, and has no more bytes left than before; descriptor
     * and cache room only shrink, and a fill that succeeds with bytes still
     * left has used some of it.
     */
    twostate predicate Filled(w: nat, ret: int)
      reads this, wq
    {
      && w < wqLen == wq.Length
      && old(wq.Length) == wq.Length
      && (forall i :: 0 <= i < wqLen && i != w ==> wq[i] == old(wq[i]))
      && (wq[w].state == old(wq[w].state) || wq[w].state == Pending)
      && wq[w].wr == old(wq[w].wr) && wq[w].doneBytes == old(wq[w].doneBytes)
      && wq[w].cur.bytes <= old(wq[w].cur.bytes)
      && avail <= old(avail) && sgcAvail <= old(sgcAvail)
      && (ret == 0 && wq[w].cur.bytes > 0 ==> avail + sgcAvail < old(avail) + old(sgcAvail))
    }

    /** One fill of entry w with the strategy the engine's mode calls for. */
    method Fill(w: nat, submitRet: int) returns (ret: int)
      requires Valid() && w < wqLen
      modifies this`pidx, this`avail, this`hwPidx, this`pendList, desc, wq
      modifies this`sgcPidx, this`sgcAvail, this`submitted, sgCache
      ensures Valid() && Filled(w, ret)
      ensures var e := old(wq[w]);
        (ret, wq[w]) ==
          if !st then MmFillOutcome(e, old(avail))
          else if c2h then C2hFillOutcome(e, old(sgcAvail), old(sgcPidx), submitRet)
          else H2cFillOutcome(e, old(avail), online)
      ensures (ret, wq[w], FreeRoom()) == FillOf(Eng(submitRet), old(wq[w]), old(FreeRoom()))
    {
      if st {
        if c2h {
          ret := FillC2h(w, submitRet);
        } else {
          ret := FillH2c(w, submitRet);
        }
      } else {
        ret := FillMm(w, submitRet);
      }
    }

    /** The block-mode fill, seen from the drain. */
    method FillMm(w: nat, ghost submitRet: int) returns (ret: int)
      requires Valid() && w < wqLen && !st
      modifies this`pidx, this`avail, this`hwPidx, this`pendList, desc, wq
      ensures Valid() && Filled(w, ret)
      ensures (ret, wq[w]) == MmFillOutcome(old(wq[w]), old(avail))
      ensures (ret, wq[w], FreeRoom()) == FillOf(Eng(submitRet), old(wq[w]), old(FreeRoom()))
    {
      var e := wq[w];
      ret := MmFill(w);
      MmPassBounds(e.wr.frags, e.cur, old(avail), QDMA_DESC_BLEN_MAX);
    }

    /** The streaming-send fill, seen from the drain. */
    method FillH2c(w: nat, ghost submitRet: int) returns (ret: int)
      requires Valid() && w < wqLen && st && !c2h
      modifies this`pidx, this`avail, this`hwPidx, this`pendList, desc, wq
      ensures Valid() && Filled(w, ret)
      ensures (ret, wq[w]) == H2cFillOutcome(old(wq[w]), old(avail), online)
      ensures (ret, wq[w], FreeRoom()) == FillOf(Eng(submitRet), old(wq[w]), old(FreeRoom()))
    {
      var e := wq[w];
      ret := H2cFill(w);
      H2cPassBounds(e.wr.frags, e.cur, old(avail));
    }

    /** The streaming-receive fill, seen from the drain. */
    method FillC2h(w: nat, submitRet: int) returns (ret: int)
      requires Valid() && w < wqLen && st && c2h
      modifies this`pidx, this`avail, this`hwPidx, this`pendList, desc, wq
      modifies this`sgcPidx, this`sgcAvail, this`submitted, sgCache
      ensures Valid() && Filled(w, ret)
      ensures (ret, wq[w]) == C2hFillOutcome(old(wq[w]), old(sgcAvail), old(sgcPidx), submitRet)
      ensures (ret, wq[w], FreeRoom()) == FillOf(Eng(submitRet), old(wq[w]), old(FreeRoom()))
    {
      var e := wq[w];
      ret := C2hFill(w, submitRet);
      C2hPassBounds(e.wr.frags, e.cur, old(sgcAvail));
    }

    /** The rest of the drain, from the queue as it is, ends at goal. */
    ghost predicate DrainTo(submitRet: int, goal: (int, seq<Wqe>, nat, Room))
      reads this, wq
    {
      DrainsTo(Eng(submitRet), wq[..], wqUnproc, wqFree, FreeRoom(), goal)
    }

    /**
     * The drain that started at unprocessed index u0 on ring w0 is under
     * way: the queue is valid, the unprocessed index has moved round
     * towards the free index, the ring is w0 as the drain may change it,
     * and every entry it has gone past has nothing left or was cancelled.
     */
    ghost predicate DrainSoFar(u0: nat, w0: seq<Wqe>)
      reads this, wq
    {
      && Valid() && u0 < wqLen && |w0| == wqLen
      && Between(u0, wqUnproc, wqFree, wqLen)
      && DrainedFrom(w0, wq[..], u0, wqFree)
      && Passed(wq[..], u0, wqUnproc)
    }

    /**
     * The drain: fills entries from the unprocessed index on, stepping over
     * cancelled ones, until there are none left or a fill returns nonzero.
     * Returns that fill result, or 0 when the unprocessed entries ran out.
     */
    method ProcReq(submitRet: int) returns (ret: int)
      requires Valid()
      modifies this`wqUnproc, this`pidx, this`avail, this`hwPidx, this`pendList, desc, wq
      modifies this`sgcPidx, this`sgcAvail, this`submitted, sgCache
      ensures Valid()
      ensures Between(old(wqUnproc), wqUnproc, wqFree, wqLen)
      ensures ret == 0 <==> wqUnproc == wqFree
      ensures ret != 0 ==> !wq[wqUnproc].state.IsCanceled()
      ensures DrainedFrom(old(wq[..]), wq[..], old(wqUnproc), wqFree)
      ensures Passed(wq[..], old(wqUnproc), wqUnproc)
      ensures avail <= old(avail) && sgcAvail <= old(sgcAvail)
      ensures CursorsOk(old(wq[..]))
      ensures Drain(Eng(submitRet), old(wq[..]), old(wqUnproc), wqFree, old(FreeRoom())) == (ret, wq[..], wqUnproc, FreeRoom())
    {
      ghost var u0, w0 := wqUnproc, wq[..];
      var w, goal := DrainStart(submitRet);
      ret := DrainLoop(w, submitRet, u0, w0, goal);
    }

    /**
     * The loop of the drain, from entry w on: one round per entry until the
     * unprocessed entries run out (result 0) or a fill returns nonzero, the
     * drain's goal reached either way.
     */
    method DrainLoop(w: Option<nat>, submitRet: int, ghost u0: nat, ghost w0: seq<Wqe>, ghost goal: (int, seq<Wqe>, nat, Room))
      returns (ret: int)
      requires DrainSoFar(u0, w0) && DrainTo(submitRet, goal)
      requires w.Some? ==> w.value == wqUnproc && wqUnproc != wqFree
      requires w.None? ==> wqUnproc == wqFree
      modifies this`wqUnproc, this`pidx, this`avail, this`hwPidx, this`pendList, desc, wq
      modifies this`sgcPidx, this`sgcAvail, this`submitted, sgCache
      ensures DrainSoFar(u0, w0) && goal == (ret, wq[..], wqUnproc, FreeRoom())
      ensures ret == 0 <==> wqUnproc == wqFree
      ensures ret != 0 ==> !wq[wqUnproc].state.IsCanceled()
      ensures avail <= old(avail) && sgcAvail <= old(sgcAvail)
    {
      var next := w;
      while next.Some?
        invariant DrainSoFar(u0, w0) && DrainTo(submitRet, goal)
        invariant next.Some? ==> next.value == wqUnproc && wqUnproc != wqFree
        invariant next.None? ==> wqUnproc == wqFree
        invariant avail <= old(avail) && sgcAvail <= old(sgcAvail)
        decreases RingOffset(wqUnproc, wqFree, wqLen), avail + sgcAvail
      {
        next, ret := DrainOne(next.value, submitRet, u0, w0, goal);
        if ret != 0 {
          return;
        }
      }
      DrainsToEnd(Eng(submitRet), wq[..], wqFree, FreeRoom(), goal);
      return 0;
    }

    /** Every entry's cursor lies inside its fragment list, read off the ring as a sequence. */
    lemma EntriesCursorsOk()
      requires EntriesOk()
      ensures CursorsOk(wq[..])
    {
    }

    /** The drain's first step over a spent entry, from which its loop starts, and where it will end. */
    method DrainStart(submitRet: int) returns (w: Option<nat>, ghost goal: (int, seq<Wqe>, nat, Room))
      requires Valid()
      modifies this`wqUnproc
      ensures CursorsOk(old(wq[..]))
      ensures goal == Drain(Eng(submitRet), old(wq[..]), old(wqUnproc), wqFree, old(FreeRoom()))
      ensures DrainSoFar(old(wqUnproc), old(wq[..])) && DrainTo(submitRet, goal)
      ensures w.Some? ==> w.value == wqUnproc && wqUnproc != wqFree
      ensures w.None? ==> wqUnproc == wqFree
    {
      EntriesCursorsOk();
      goal := Drain(Eng(submitRet), wq[..], wqUnproc, wqFree, FreeRoom());
      ghost var u0 := wqUnproc;
      w := NextUnproc();
      if wqUnproc != u0 {
        PassedStep(wq[..], u0, u0, wqFree);
      }
    }

    /**
     * One round of the drain at entry i, the one at the unprocessed index:
     * a cancelled entry is left as it is, any other one gets the fill of
     * the engine's mode, with its result; when that is 0 the unprocessed
     * index takes the step of `wq_next_unproc`, otherwise it stays at i.
     */
    twostate predicate DrainRoundDone(i: nat, submitRet: int, ret: int)
      reads this, wq
    {
      Round(Eng(submitRet), old(wq[..]), i, wqFree, old(FreeRoom()), ret, wq[..], wqUnproc, FreeRoom())
    }

    /**
     * One round of the drain on entry i, the one at the unprocessed index:
     * a fill unless it was cancelled, then the next entry to fill. The rest
     * of the drain is the same from before and after the round, or ends
     * with the round's nonzero result. A round whose fill succeeds either
     * moves the unprocessed index on or uses up descriptor or cache room.
     */
    method DrainOne(i: nat, submitRet: int, ghost u0: nat, ghost w0: seq<Wqe>, ghost goal: (int, seq<Wqe>, nat, Room))
      returns (w: Option<nat>, ret: int)
      requires DrainSoFar(u0, w0) && DrainTo(submitRet, goal) && i == wqUnproc && wqUnproc != wqFree
      modifies this`wqUnproc, this`pidx, this`avail, this`hwPidx, this`pendList, desc, wq
      modifies this`sgcPidx, this`sgcAvail, this`submitted, sgCache
      ensures DrainRoundDone(i, submitRet, ret)
      ensures ret == 0 ==> DrainTo(submitRet, goal)
      ensures ret != 0 ==> goal == (ret, wq[..], wqUnproc, FreeRoom())
      ensures DrainSoFar(u0, w0)
      ensures avail <= old(avail) && sgcAvail <= old(sgcAvail)
      ensures ret != 0 ==> !wq[wqUnproc].state.IsCanceled()
      ensures ret == 0 ==>
        && (w.Some? ==> w.value == wqUnproc && wqUnproc != wqFree)
        && (w.None? ==> wqUnproc == wqFree)
        && (RingOffset(wqUnproc, wqFree, wqLen) < RingOffset(old(wqUnproc), wqFree, wqLen) ||
            (wqUnproc == old(wqUnproc) && avail + sgcAvail < old(avail) + old(sgcAvail)))
    {
      if wq[i].state.IsCanceled() {
        w := DrainSkip(i, submitRet, u0, w0, goal);
        ret := 0;
      } else {
        w, ret := DrainLive(i, submitRet, u0, w0, goal);
      }
    }

    /** The round on a cancelled entry: no fill, only the step on. */
    method DrainSkip(i: nat, submitRet: int, ghost u0: nat, ghost w0: seq<Wqe>, ghost goal: (int, seq<Wqe>, nat, Room))
      returns (w: Option<nat>)
      requires DrainSoFar(u0, w0) && DrainTo(submitRet, goal) && i == wqUnproc && wqUnproc != wqFree
      requires wq[i].state.IsCanceled()
      modifies this`wqUnproc
      ensures DrainRoundDone(i, submitRet, 0) && DrainTo(submitRet, goal)
      ensures DrainSoFar(u0, w0)
      ensures w.Some? ==> w.value == wqUnproc && wqUnproc != wqFree
      ensures w.None? ==> wqUnproc == wqFree
      ensures RingOffset(wqUnproc, wqFree, wqLen) < RingOffset(old(wqUnproc), wqFree, wqLen)
    {
      ghost var a, room := wq[..], FreeRoom();
      w := DrainAdvance(u0);
      assert wq[..] == a;
      DrainRound(Eng(submitRet), a, i, wqFree, room, 0, wq[..], wqUnproc, FreeRoom(), goal);
    }

    /** The round on an entry that was not cancelled: its fill, then the step on when that returned 0. */
    method DrainLive(i: nat, submitRet: int, ghost u0: nat, ghost w0: seq<Wqe>, ghost goal: (int, seq<Wqe>, nat, Room))
      returns (w: Option<nat>, ret: int)
      requires DrainSoFar(u0, w0) && DrainTo(submitRet, goal) && i == wqUnproc && wqUnproc != wqFree
      requires !wq[i].state.IsCanceled()
      modifies this`wqUnproc, this`pidx, this`avail, this`hwPidx, this`pendList, desc, wq
      modifies this`sgcPidx, this`sgcAvail, this`submitted, sgCache
      ensures DrainRoundDone(i, submitRet, ret)
      ensures ret == 0 ==> DrainTo(submitRet, goal)
      ensures ret != 0 ==> goal == (ret, wq[..], wqUnproc, FreeRoom())
      ensures DrainSoFar(u0, w0)
      ensures avail <= old(avail) && sgcAvail <= old(sgcAvail)
      ensures ret != 0 ==> !wq[wqUnproc].state.IsCanceled()
      ensures ret == 0 ==>
        && (w.Some? ==> w.value == wqUnproc && wqUnproc != wqFree)
        && (w.None? ==> wqUnproc == wqFree)
        && (RingOffset(wqUnproc, wqFree, wqLen) < RingOffset(old(wqUnproc), wqFree, wqLen) ||
            (wqUnproc == old(wqUnproc) && avail + sgcAvail < old(avail) + old(sgcAvail)))
    {
      ghost var a, room := wq[..], FreeRoom();
      ret := DrainFill(i, submitRet, u0, w0);
      if ret == 0 {
        ghost var b := wq[..];
        w := DrainAdvance(u0);
        assert wq[..] == b;
      } else {
        w := None;
      }
      DrainRound(Eng(submitRet), a, i, wqFree, room, ret, wq[..], wqUnproc, FreeRoom(), goal);
    }

    /**
     * The end of the drain's round: the next entry to fill, the one it
     * steps over joining what the drain has gone past.
     */
    method DrainAdvance(ghost u0: nat) returns (w: Option<nat>)
      requires Valid() && wqUnproc != wqFree && u0 < wqLen
      requires Between(u0, wqUnproc, wqFree, wqLen) && Passed(wq[..], u0, wqUnproc)
      modifies this`wqUnproc
      ensures Valid() && Between(u0, wqUnproc, wqFree, wqLen) && Passed(wq[..], u0, wqUnproc)
      ensures w.Some? ==> w.value == wqUnproc && wqUnproc != wqFree
      ensures w.None? ==> wqUnproc == wqFree
      ensures wqUnproc == old(wqUnproc) || RingOffset(wqUnproc, wqFree, wqLen) < RingOffset(old(wqUnproc), wqFree, wqLen)
      ensures wqUnproc == old(wqUnproc) ==> wq[wqUnproc].cur.bytes > 0 && !wq[wqUnproc].state.IsCanceled()
      ensures wqUnproc == SkipSpent(wq[..], old(wqUnproc), wqFree)
    {
      var i := wqUnproc;
      w := NextUnproc();
      if wqUnproc != i {
        PassedStep(wq[..], u0, i, wqFree);
      }
      BetweenTrans(u0, i, wqUnproc, wqFree, wqLen);
    }

    /**
     * The fill of the drain's round on entry i, which was not cancelled:
     * it extends what the drain has done and keeps what it has gone past.
     */
    method DrainFill(i: nat, submitRet: int, ghost u0: nat, ghost w0: seq<Wqe>) returns (ret: int)
      requires Valid() && i == wqUnproc && wqUnproc != wqFree && u0 < wqLen && |w0| == wqLen
      requires Between(u0, wqUnproc, wqFree, wqLen) && DrainedFrom(w0, wq[..], u0, wqFree)
      requires Passed(wq[..], u0, wqUnproc) && !wq[i].state.IsCanceled()
      modifies this`pidx, this`avail, this`hwPidx, this`pendList, desc, wq
      modifies this`sgcPidx, this`sgcAvail, this`submitted, sgCache
      ensures Valid() && Filled(i, ret) && DrainedFrom(w0, wq[..], u0, wqFree) && Passed(wq[..], u0, wqUnproc)
      ensures (ret, wq[i], FreeRoom()) == FillOf(Eng(submitRet), old(wq[i]), old(FreeRoom()))
      ensures wq[..] == old(wq[..])[i := wq[i]]
      ensures avail <= old(avail) && sgcAvail <= old(sgcAvail)
      ensures ret == 0 && wq[i].cur.bytes > 0 ==> avail + sgcAvail < old(avail) + old(sgcAvail)
    {
      ghost var w1 := wq[..];
      ret := Fill(i, submitRet);
      assert wq[..] == w1[i := wq[i]];
      DrainedStep(w0, w1, wq[..], u0, wqFree, i);
      PassedKeep(w1, wq[..], u0, i);
    }

    /**
     * The bookkeeping of a completion report for entry w: the entry's new
     * state, the cache slots it gave back, the completion counters and the
     * caller notification. Returns whether the report finished the request.
     */
    method RetireEntry(w: nat, bytesDone: int, err: int) returns (fin: bool)
      requires Valid() && w < wqLen && sgcAvail + wq[w].sgcnt < sgcLen
      modifies wq, this`sgcAvail, this`complNum, this`complNbytes, this`events
      ensures Valid()
      ensures fin == Finishes(old(wq[w]), old(wq[w].doneBytes) + bytesDone, err)
      ensures forall i :: 0 <= i < wqLen && i != w ==> wq[i] == old(wq[i])
      ensures wq[w] == Retired(old(wq[w]), bytesDone, err)
      ensures sgcAvail == old(sgcAvail) + old(wq[w].sgcnt)
      ensures events == old(events) + RetireEvents(w, old(wq[w]), bytesDone, err)
      ensures complNum == old(complNum) + (if fin then 1 else 0)
      ensures complNbytes == old(complNbytes) + (if fin then old(wq[w].doneBytes) + bytesDone else 0)
    {
      var e := wq[w];
      var r := Retired(e, bytesDone, err);
      sgcAvail := sgcAvail + e.sgcnt;
      SetEntry(w, r);
      fin := Finishes(e, r.doneBytes, err);
      Deliver(RetireEvents(w, e, bytesDone, err), fin, r.doneBytes);
    }

    /** Delivers a completion's events and, for a finished request, counts it in the statistics. */
    method Deliver(evs: seq<Event>, fin: bool, doneBytes: int)
      requires Valid()
      modifies this`events, this`complNum, this`complNbytes
      ensures Valid() && events == old(events) + evs
      ensures complNum == old(complNum) + (if fin then 1 else 0)
      ensures complNbytes == old(complNbytes) + (if fin then doneBytes else 0)
    {
      events := events + evs;
      if fin {
        complNbytes := complNbytes + doneBytes;
        complNum := complNum + 1;
      }
    }

    /**
     * The walk over cancelled entries after a completion: from `start`,
     * each entry cancelled before the engine saw it drops its unprocessed
     * bytes, a non-blocking one gets a cancelled callback, and the walk
     * moves on to the next pending entry.
     */
    method Sweep(start: Option<nat>)
      requires Valid() && (start.Some? ==> start.value < wqLen)
      modifies wq, this`events, this`wqPending
      ensures Valid()
      ensures Between(old(wqPending), wqPending, wqUnproc, wqLen)
      ensures SweptFrom(old(wq[..]), wq[..])
      ensures CanceledCallbacks(old(events), events)
      ensures var walk := CancelWalk(old(wq[..]), old(wqPending), wqUnproc, start);
        && wqPending == walk.1
        && wq[..] == SweptAt(old(wq[..]), walk.0)
        && events == old(events) + CancelEvents(old(wq[..]), walk.0)
    {
      ghost var a0 := wq[..];
      ghost var vis: seq<nat> := [];
      var cur := start;
      assert vis + CancelWalk(a0, wqPending, wqUnproc, cur).0 == CancelWalk(a0, wqPending, wqUnproc, cur).0;
      while cur.Some? && wq[cur.value].state == Canceled
        invariant Valid() && (cur.Some? ==> cur.value < wqLen)
        invariant Between(old(wqPending), wqPending, wqUnproc, wqLen)
        invariant SweepSoFar(a0, old(wqPending), wqUnproc, start, old(events), vis, wqPending, cur, wq[..], events)
        decreases RingOffset(wqPending, wqUnproc, wqLen) + (if cur.Some? then 1 else 0)
      {
        var c := cur.value;
        cur := SweepVisit(c, a0, vis, old(wqPending), start, old(events));
        vis := vis + [c];
      }
      SweepDone(a0, old(wqPending), wqUnproc, start, old(events), vis, wqPending, cur, wq[..], events);
    }

    /**
     * One step of the walk that started at `start` with ring a0, pending
     * index p0 and events ev0, having visited the entries vis: sweeps entry
     * c and moves to the next pending entry.
     */
    method SweepVisit(c: nat, ghost a0: seq<Wqe>, ghost vis: seq<nat>, ghost p0: nat, ghost start: Option<nat>,
                      ghost ev0: seq<Event>) returns (next: Option<nat>)
      requires Valid() && c < wqLen && |a0| == wqLen && a0[c].state == Canceled && p0 < wqLen
      requires Between(p0, wqPending, wqUnproc, wqLen)
      requires SweepSoFar(a0, p0, wqUnproc, start, ev0, vis, wqPending, Some(c), wq[..], events)
      modifies wq, this`events, this`wqPending
      ensures Valid() && (next.Some? ==> next.value < wqLen)
      ensures Between(p0, wqPending, wqUnproc, wqLen)
      ensures SweepSoFar(a0, p0, wqUnproc, start, ev0, vis + [c], wqPending, next, wq[..], events)
      ensures old(wqPending) == wqUnproc ==> next == None
      ensures old(wqPending) != wqUnproc ==>
        RingOffset(wqPending, wqUnproc, wqLen) == RingOffset(old(wqPending), wqUnproc, wqLen) - 1
      ensures RingOffset(wqPending, wqUnproc, wqLen) + (if next.Some? then 1 else 0)
              <= RingOffset(old(wqPending), wqUnproc, wqLen)
    {
      ghost var p, w1, e1 := wqPending, wq[..], events;
      SweepOne(c);
      next := NextPending();
      if p != wqUnproc {
        AdvanceMiddle(p0, p, wqUnproc, wqLen);
      }
      SweepAdvance(a0, p0, wqUnproc, start, ev0, vis, p, c, w1, e1, wqPending, next, wq[..], events);
    }

    /** Drops the unprocessed bytes of cancelled entry i and tells a non-blocking caller. */
    method SweepOne(i: nat)
      requires Valid() && i < wqLen && wq[i].state == Canceled
      modifies wq, this`events
      ensures Valid()
      ensures wq[..] == old(wq[..])[i := Swept(old(wq[i]))]
      ensures events == old(events) + CancelEvent(old(wq[..]), i)
    {
      var e := wq[i];
      SetEntry(i, Swept(e));
      if !e.wr.block {
        events := events + [Callback(i, 0, CanceledStatus)];
      }
    }

    /**
     * What a completion report does for entry w itself: a finished request
     * is counted in the statistics, the entry keeps its request and adds
     * the bytes done, a cancelled entry stays cancelled, and every callback
     * added after the retire callbacks reports a cancellation.
     */
    twostate predicate RetiredAs(w: nat, bytesDone: int, err: int)
      requires old(Valid()) && w < old(wqLen)
      reads this, wq
    {
      var e := old(wq[w]);
      var fin := Finishes(e, e.doneBytes + bytesDone, err);
      && complNum == old(complNum) + (if fin then 1 else 0)
      && complNbytes == old(complNbytes) + (if fin then e.doneBytes + bytesDone else 0)
      && CanceledCallbacks(old(events) + RetireEvents(w, e, bytesDone, err), events)
      && w < wq.Length && wq[w].wr == e.wr && wq[w].doneBytes == e.doneBytes + bytesDone
      && (e.state.IsCanceled() ==> wq[w].state == e.state)
    }

    /**
     * `qdma_wqe_complete`: the engine reports `bytesDone` more bytes with
     * error `err` for entry w; the entry is retired as far as it can be,
     * cancelled entries after it are swept, and the drain runs again.
     */
    method Complete(w: nat, bytesDone: int, err: int, submitRet: int) returns (ret: int)
      requires Valid() && w < wqLen && sgcAvail + wq[w].sgcnt < sgcLen
      modifies this`wqPending, this`wqUnproc, this`pidx, this`avail, this`hwPidx, this`pendList, desc, wq
      modifies this`sgcPidx, this`sgcAvail, this`submitted, sgCache, this`complNum, this`complNbytes, this`events
      ensures Valid() && ret == 0
      ensures RetiredAs(w, bytesDone, err)
      ensures CompletionLeaves(Eng(submitRet), old(wq[..]), w, old(wqPending), old(wqUnproc), wqFree, old(FreeRoom()),
                               old(events), bytesDone, err, wq[..], wqPending, wqUnproc, FreeRoom(), events)
    {
      ghost var a, p, u, room, ev := wq[..], wqPending, wqUnproc, FreeRoom(), events;
      var next := RetireAndStep(w, bytesDone, err);
      ghost var r, p2, room2, ev2 := wq[..], wqPending, FreeRoom(), events;
      SweepAndDrain(next, submitRet, w);
      CompletionHalves(Eng(submitRet), a, w, p, u, wqFree, room, ev, bytesDone, err, next,
                       r, p2, room2, ev2, wq[..], wqPending, wqUnproc, FreeRoom(), events);
      return 0;
    }

    /**
     * The first half of a completion report: entry w is retired and, when
     * the request finished or was cancelled by the hardware, the pending
     * index steps past it; the walk over cancelled entries starts at next.
     */
    method RetireAndStep(w: nat, bytesDone: int, err: int) returns (next: Option<nat>)
      requires Valid() && w < wqLen && sgcAvail + wq[w].sgcnt < sgcLen
      modifies wq, this`sgcAvail, this`complNum, this`complNbytes, this`events, this`wqPending
      ensures Valid() && (next.Some? ==> next.value < wqLen)
      ensures var fin := Finishes(old(wq[w]), old(wq[w].doneBytes) + bytesDone, err);
        && complNum == old(complNum) + (if fin then 1 else 0)
        && complNbytes == old(complNbytes) + (if fin then old(wq[w].doneBytes) + bytesDone else 0)
      ensures RetireStep(old(wq[..]), w, old(wqPending), wqUnproc, old(FreeRoom()), old(events), bytesDone, err,
                         next, wq[..], wqPending, FreeRoom(), events)
    {
      var e := wq[w];
      var fin := RetireEntry(w, bytesDone, err);
      assert wq[..] == old(wq[..])[w := Retired(e, bytesDone, err)];
      next := Some(w);
      if fin || e.state == CanceledHw {
        next := NextPending();
      }
    }

    /**
     * The second half of a completion report: the walk over cancelled
     * entries from `start`, then the drain. Entry k keeps its request and
     * bytes done, and keeps its state if it was cancelled.
     */
    method SweepAndDrain(start: Option<nat>, submitRet: int, ghost k: nat)
      requires Valid() && (start.Some? ==> start.value < wqLen) && k < wqLen
      modifies this`wqPending, this`wqUnproc, this`pidx, this`avail, this`hwPidx, this`pendList, desc, wq
      modifies this`sgcPidx, this`sgcAvail, this`submitted, sgCache, this`events
      ensures Valid() && CanceledCallbacks(old(events), events)
      ensures wq[k].wr == old(wq[k].wr) && wq[k].doneBytes == old(wq[k].doneBytes)
      ensures old(wq[k].state).IsCanceled() ==> wq[k].state == old(wq[k].state)
      ensures SweepLeaves(Eng(submitRet), old(wq[..]), old(wqPending), old(wqUnproc), wqFree, old(FreeRoom()), old(events),
                          start, wq[..], wqPending, wqUnproc, FreeRoom(), events)
    {
      ghost var a, p, u, room, ev := wq[..], wqPending, wqUnproc, FreeRoom(), events;
      Sweep(start);
      SweptKeeps(a, wq[..], k);
      DrainAfterSweep(submitRet, k, a, p, u, room, ev, start);
    }

    /**
     * The drain that follows the walk which started at `start` from ring a,
     * pending index p, unprocessed index u, room `room` and events ev.
     */
    method DrainAfterSweep(submitRet: int, ghost k: nat, ghost a: seq<Wqe>, ghost p: nat, ghost u: nat, ghost room: Room,
                           ghost ev: seq<Event>, ghost start: Option<nat>)
      requires Valid() && k < wqLen && |a| == wqLen && p < wqLen && (start.Some? ==> start.value < wqLen)
      requires u == wqUnproc && room == FreeRoom()
      requires var walk := CancelWalk(a, p, u, start);
        && wqPending == walk.1 && wq[..] == SweptAt(a, walk.0) && events == ev + CancelEvents(a, walk.0)
      modifies this`wqUnproc, this`pidx, this`avail, this`hwPidx, this`pendList, desc, wq
      modifies this`sgcPidx, this`sgcAvail, this`submitted, sgCache
      ensures Valid()
      ensures wq[k].wr == old(wq[k].wr) && wq[k].doneBytes == old(wq[k].doneBytes)
      ensures old(wq[k].state).IsCanceled() ==> wq[k].state == old(wq[k].state)
      ensures SweepLeaves(Eng(submitRet), a, p, u, wqFree, room, ev, start, wq[..], wqPending, wqUnproc, FreeRoom(), events)
    {
      ghost var w2 := wq[..];
      var ret := ProcReq(submitRet);
      ghost var w3 := wq[..];
      DrainedKeeps(w2, w3, u, wqFree, k);
      assert wq[k] == w3[k];
    }

    /**
     * `qdma_cancel_req`: the most recent non-blocking request is cancelled:
     * in hardware when it is pending (the engine is asked to drop it),
     * otherwise by marking it. Returns -EINVAL when there is none.
     */
    method Cancel() returns (ret: int)
      requires Valid()
      modifies wq, this`hwCancels
      ensures Valid()
      ensures ret == 0 || ret == -EINVAL
      ensures ret == -EINVAL ==>
        && hwCancels == old(hwCancels) && wq[..] == old(wq[..])
        && forall j :: 0 <= j < wqLen && Live(wqPending, j, wqFree, wqLen) ==> wq[j].wr.block
      ensures ret == 0 ==> exists w ::
        && 0 <= w < wqLen && Live(wqPending, w, wqFree, wqLen) && !old(wq[w]).wr.block
        && (forall j ::
              (0 <= j < wqLen && Live(wqPending, j, wqFree, wqLen) &&
               RingOffset(wqPending, j, wqLen) > RingOffset(wqPending, w, wqLen)) ==> old(wq[j]).wr.block)
        && (forall i :: 0 <= i < wqLen && i != w ==> wq[i] == old(wq[i]))
        && (old(wq[w]).state == Pending ==> wq[w] == old(wq[w]).(state := CanceledHw) && hwCancels == old(hwCancels) + [w])
        && (old(wq[w]).state != Pending ==> wq[w] == old(wq[w]).(state := Canceled) && hwCancels == old(hwCancels))
    {
      var w := LastNonblock();
      if w.None? {
        return -EINVAL;
      }
      var i := w.value;
      var e := wq[i];
      if e.state == Pending {
        hwCancels := hwCancels + [i];
        wq[i] := e.(state := CanceledHw);
      } else {
        wq[i] := e.(state := Canceled);
      }
      assert forall j :: 0 <= j < wqLen ==> wq[j] == if j == i then wq[i] else old(wq[j]);
      return 0;
    }

    /**
     * `qdma_wq_post` up to the wait of a blocking request: locates the
     * request's offset, rejects a misaligned streaming write, takes a free
     * entry (or answers -EAGAIN when there is none), stores the request and
     * counts it, and drains. A non-blocking request returns its length; a
     * blocking one returns 0 here and its caller goes on with
     * AwaitCompletion on the entry returned.
     */
    method Post(wr: WorkRequest, submitRet: int) returns (ret: int, w: Option<nat>)
      requires Valid() && wr.offset + wr.len <= SumFrom(wr.frags, 0)
      modifies this`wqFree, this`wqUnproc, this`pidx, this`avail, this`hwPidx, this`pendList, desc, wq
      modifies this`sgcPidx, this`sgcAvail, this`submitted, sgCache, this`reqNum, this`reqNbytes
      ensures Valid()
      ensures ret == -EINVAL ==>
        && w == None && wq[..] == old(wq[..]) && wqFree == old(wqFree) && wqUnproc == old(wqUnproc)
        && reqNum == old(reqNum) && reqNbytes == old(reqNbytes) && FreeRoom() == old(FreeRoom())
        && pidx == old(pidx) && hwPidx == old(hwPidx) && pendList == old(pendList) && desc[..] == old(desc[..])
        && submitted == old(submitted) && sgCache[..] == old(sgCache[..])
      ensures ret == -EAGAIN ==> w == None && wqFree == old(wqFree) && reqNum == old(reqNum) && reqNbytes == old(reqNbytes)
      ensures w.Some? ==>
        && w.value == old(wqFree) && wqFree == NextIdx(old(wqFree), wqLen)
        && reqNum == old(reqNum) + 1 && reqNbytes == old(reqNbytes) + wr.len
        && wq[w.value].wr == wr && wq[w.value].doneBytes == 0
        && ret == (if wr.block then 0 else wr.len)
      ensures var loc := Locate(wr.frags, wr.offset);
        var misaligned := PostMisaligned(st, wr.write, wr.frags, loc.0, loc.1);
        var full := NextIdx(old(wqFree), wqLen) == old(wqPending);
        && (ret == -EINVAL <==> misaligned)
        && (ret == -EAGAIN <==> !misaligned && full)
        && (w.Some? <==> !misaligned && !full)
        && (ret == -EAGAIN ==>
              && DrainedFrom(old(wq[..]), wq[..], old(wqUnproc), wqFree) && Passed(wq[..], old(wqUnproc), wqUnproc)
              && DrainLeaves(Eng(submitRet), old(wq[..]), old(wqUnproc), wqFree, old(FreeRoom()), wq[..], wqUnproc, FreeRoom()))
        && (w.Some? ==>
              && DrainedFrom(old(wq[..])[w.value := Posted(wr, loc.0, loc.1)], wq[..], old(wqUnproc), wqFree)
              && Passed(wq[..], old(wqUnproc), wqUnproc)
              && DrainLeaves(Eng(submitRet), old(wq[..])[w.value := Posted(wr, loc.0, loc.1)], old(wqUnproc), wqFree,
                             old(FreeRoom()), wq[..], wqUnproc, FreeRoom()))
    {
      var i, off := FindFragment(wr.frags, wr.offset);
      if PostMisaligned(st, wr.write, wr.frags, i, off) {
        return -EINVAL, None;
      }
      ret, w := Admit(wr, i, off, submitRet);
    }

    /**
     * The post path once the request is located at fragment i, offset off:
     * with the ring full, -EAGAIN after a drain; otherwise the request is
     * stored in the free entry, counted and drained.
     */
    method Admit(wr: WorkRequest, i: nat, off: nat, submitRet: int) returns (ret: int, w: Option<nat>)
      requires Valid() && i <= |wr.frags| && PrefixLen(wr.frags, i) + off == wr.offset
      requires i < |wr.frags| ==> off < wr.frags[i].length
      requires wr.offset + wr.len <= SumFrom(wr.frags, 0)
      modifies this`wqFree, this`wqUnproc, this`pidx, this`avail, this`hwPidx, this`pendList, desc, wq
      modifies this`sgcPidx, this`sgcAvail, this`submitted, sgCache, this`reqNum, this`reqNbytes
      ensures Valid() && Passed(wq[..], old(wqUnproc), wqUnproc)
      ensures NextIdx(old(wqFree), wqLen) == old(wqPending) ==>
        && ret == -EAGAIN && w == None && wqFree == old(wqFree)
        && reqNum == old(reqNum) && reqNbytes == old(reqNbytes)
        && DrainedFrom(old(wq[..]), wq[..], old(wqUnproc), wqFree)
        && DrainLeaves(Eng(submitRet), old(wq[..]), old(wqUnproc), wqFree, old(FreeRoom()), wq[..], wqUnproc, FreeRoom())
      ensures NextIdx(old(wqFree), wqLen) != old(wqPending) ==>
        && w == Some(old(wqFree)) && wqFree == NextIdx(old(wqFree), wqLen)
        && reqNum == old(reqNum) + 1 && reqNbytes == old(reqNbytes) + wr.len
        && wq[w.value].wr == wr && wq[w.value].doneBytes == 0
        && ret == (if wr.block then 0 else wr.len)
        && DrainedFrom(old(wq[..])[w.value := Posted(wr, i, off)], wq[..], old(wqUnproc), wqFree)
        && DrainLeaves(Eng(submitRet), old(wq[..])[w.value := Posted(wr, i, off)], old(wqUnproc), wqFree,
                       old(FreeRoom()), wq[..], wqUnproc, FreeRoom())
    {
      ghost var a, room := wq[..], FreeRoom();
      w := NextFree();
      ret := AdmitAt(w, wr, i, off, submitRet, a, room);
    }

    /**
     * The post path once `wq_next_free` has answered w, from ring a with
     * free room `room`: with no free entry, -EAGAIN after a drain;
     * otherwise the request is stored in entry w, counted and drained.
     */
    method AdmitAt(w: Option<nat>, wr: WorkRequest, i: nat, off: nat, submitRet: int, ghost a: seq<Wqe>, ghost room: Room)
      returns (ret: int)
      requires Valid() && (w.Some? ==> w.value < wqLen) && a == wq[..] && room == FreeRoom()
      requires i <= |wr.frags| && PrefixLen(wr.frags, i) + off == wr.offset
      requires i < |wr.frags| ==> off < wr.frags[i].length
      requires wr.offset + wr.len <= SumFrom(wr.frags, 0)
      modifies this`wqUnproc, this`pidx, this`avail, this`hwPidx, this`pendList, desc, wq
      modifies this`sgcPidx, this`sgcAvail, this`submitted, sgCache, this`reqNum, this`reqNbytes
      ensures Valid() && Passed(wq[..], old(wqUnproc), wqUnproc)
      ensures w.None? ==>
        && ret == -EAGAIN && reqNum == old(reqNum) && reqNbytes == old(reqNbytes)
        && DrainedFrom(a, wq[..], old(wqUnproc), wqFree)
        && DrainLeaves(Eng(submitRet), a, old(wqUnproc), wqFree, room, wq[..], wqUnproc, FreeRoom())
      ensures w.Some? ==>
        && reqNum == old(reqNum) + 1 && reqNbytes == old(reqNbytes) + wr.len
        && wq[w.value].wr == wr && wq[w.value].doneBytes == 0
        && ret == (if wr.block then 0 else wr.len)
        && DrainedFrom(a[w.value := Posted(wr, i, off)], wq[..], old(wqUnproc), wqFree)
        && DrainLeaves(Eng(submitRet), a[w.value := Posted(wr, i, off)], old(wqUnproc), wqFree,
                       room, wq[..], wqUnproc, FreeRoom())
    {
      if w.None? {
        ret := ProcReq(submitRet);
        return -EAGAIN;
      }
      Enqueue(w.value, wr, i, off, submitRet);
      ret := if wr.block then 0 else wr.len;
    }

    /**
     * Stores request wr, located at fragment i, offset off, in free entry
     * k, counts it and drains the ring.
     */
    method Enqueue(k: nat, wr: WorkRequest, i: nat, off: nat, submitRet: int)
      requires Valid() && k < wqLen
      requires i <= |wr.frags| && PrefixLen(wr.frags, i) + off == wr.offset
      requires i < |wr.frags| ==> off < wr.frags[i].length
      requires wr.offset + wr.len <= SumFrom(wr.frags, 0)
      modifies this`wqUnproc, this`pidx, this`avail, this`hwPidx, this`pendList, desc, wq
      modifies this`sgcPidx, this`sgcAvail, this`submitted, sgCache, this`reqNum, this`reqNbytes
      ensures Valid() && wq[k].wr == wr && wq[k].doneBytes == 0
      ensures reqNum == old(reqNum) + 1 && reqNbytes == old(reqNbytes) + wr.len
      ensures DrainedFrom(old(wq[..])[k := Posted(wr, i, off)], wq[..], old(wqUnproc), wqFree)
      ensures Passed(wq[..], old(wqUnproc), wqUnproc)
      ensures DrainLeaves(Eng(submitRet), old(wq[..])[k := Posted(wr, i, off)], old(wqUnproc), wqFree,
                          old(FreeRoom()), wq[..], wqUnproc, FreeRoom())
    {
      PostedCursorOk(wr.frags, wr.offset, wr.len, i, off, wr.epAddr);
      SetEntry(k, Posted(wr, i, off));
      assert wq[..] == old(wq[..])[k := Posted(wr, i, off)];
      CountRequest(wr.len);
      ghost var w1, u1 := wq[..], wqUnproc;
      var ret := ProcReq(submitRet);
      ghost var w2 := wq[..];
      DrainedKeeps(w1, w2, u1, wqFree, k);
      assert wq[k] == w2[k];
    }

    /** Counts a posted request of `len` bytes in the statistics. */
    method CountRequest(len: nat)
      requires Valid()
      modifies this`reqNum, this`reqNbytes
      ensures Valid() && reqNum == old(reqNum) + 1 && reqNbytes == old(reqNbytes) + len
    {
      reqNbytes := reqNbytes + len;
      reqNum := reqNum + 1;
    }

    /**
     * The wait of a blocking post on entry w: it ends either after the
     * entry became done, or when the caller is interrupted, in which case a
     * pending entry is cancelled in hardware and any other one is marked
     * cancelled. Either way the caller gets the bytes done so far.
     */
    method AwaitCompletion(w: nat, interrupted: bool) returns (ret: int)
      requires Valid() && w < wqLen && (interrupted || wq[w].state == Done)
      modifies wq
      ensures Valid()
      ensures ret == old(wq[w].doneBytes)
      ensures forall i :: 0 <= i < wqLen && i != w ==> wq[i] == old(wq[i])
      ensures !interrupted ==> wq[w] == old(wq[w])
      ensures interrupted ==>
        wq[w] == old(wq[w]).(state := if old(wq[w].state) == Pending then CanceledHw else Canceled)
    {
      if interrupted {
        var e := wq[w];
        wq[w] := e.(state := if e.state == Pending then CanceledHw else Canceled);
        assert forall j :: 0 <= j < wqLen ==> wq[j] == if j == w then wq[w] else old(wq[j]);
      }
      ret := wq[w].doneBytes;
    }

    /** `qdma_wq_getstat`: the request and completion totals and the slot counts of the WQE ring. */
    function GetStat(): (s: Stat)
      reads this
      requires wqLen > 0 && wqPending < wqLen && wqUnproc < wqLen && wqFree < wqLen
      ensures s.totalSlots == wqLen
      ensures s.totalReqNum == reqNum && s.totalReqBytes == reqNbytes
      ensures s.totalCompleteNum == complNum && s.totalCompleteBytes == complNbytes
      ensures (s.freeSlots, s.pendingSlots, s.unprocSlots) == SlotCounts(wqPending, wqUnproc, wqFree, wqLen)
    {
      var (fr, pe, un) := SlotCounts(wqPending, wqUnproc, wqFree, wqLen);
      Stat(reqNbytes, reqNum, complNbytes, complNum, wqLen, fr, pe, un)
    }

    /** In a valid queue the slot counts of GetStat add up to one less than the ring size. */
    lemma GetStatSlotsAddUp()
      requires Valid()
      ensures GetStat().freeSlots + GetStat().pendingSlots + GetStat().unprocSlots == wqLen - 1
    {
      SlotCountsAddUp(wqPending, wqUnproc, wqFree, wqLen);
    }
  }
}

/**
 * What happens to a single work-queue entry outside the fill passes: how
 * a request is located in its fragment list and checked when it is
 * posted, the entry it becomes, how a completion report changes it and
 * what the caller is told, and the slot counts the statistics report.
 */
module QdmaEntry {
  import opened Wrappers
  import opened QdmaTypes
  import opened QdmaChunking

  // ---------------------------------------------------------------------
  // Posting
  // ---------------------------------------------------------------------

  /** Total length of the first k fragments. */
  function PrefixLen(frags: seq<Fragment>, k: nat): nat
    requires k <= |frags|
  {
    if k == 0 then 0 else PrefixLen(frags, k - 1) + frags[k - 1].length
  }

  /** The first k fragments and the ones from k on make up the whole list. */
  lemma {:induction false} PrefixPlusSuffix(frags: seq<Fragment>, k: nat)
    requires k <= |frags|
    ensures PrefixLen(frags, k) + SumFrom(frags, k) == SumFrom(frags, 0)
    decreases k
  {
    if k > 0 {
      PrefixPlusSuffix(frags, k - 1);
    }
  }

  /**
   * Where an offset of `off` bytes from the start of fragment k lies: the
   * first fragment from k on that contains it and the offset inside that
   * fragment, or the list length and what is left when it lies at or past
   * the end.
   */
  function LocateFrom(frags: seq<Fragment>, k: nat, off: nat): (r: (nat, nat))
    requires k <= |frags|
    ensures k <= r.0 <= |frags| && PrefixLen(frags, r.0) + r.1 == PrefixLen(frags, k) + off
    ensures r.0 < |frags| ==> r.1 < frags[r.0].length
    ensures forall j :: k < j <= r.0 ==> PrefixLen(frags, j) <= PrefixLen(frags, k) + off
    decreases |frags| - k
  {
    if k == |frags| || off < frags[k].length then (k, off)
    else LocateFrom(frags, k + 1, off - frags[k].length)
  }

  /** The fragment holding byte `offset` of the list, and the offset inside it. */
  function Locate(frags: seq<Fragment>, offset: nat): (r: (nat, nat))
    ensures r.0 <= |frags| && PrefixLen(frags, r.0) + r.1 == offset
    ensures r.0 < |frags| ==> r.1 < frags[r.0].length
  {
    LocateFrom(frags, 0, offset)
  }

  /**
   * The offset walk of the post path: skips whole fragments while the
   * offset reaches past them and stops at the first fragment that contains
   * it. Returns that fragment's index (the list length when the offset
   * lies at or past the end) and the offset inside it.
   */
  method FindFragment(frags: seq<Fragment>, offset: nat) returns (i: nat, off: nat)
    ensures (i, off) == Locate(frags, offset)
    ensures i <= |frags| && PrefixLen(frags, i) + off == offset
    ensures i < |frags| ==> off < frags[i].length
    ensures forall j :: 0 < j <= i ==> PrefixLen(frags, j) <= offset
  {
    i, off := 0, offset;
    while i < |frags|
      invariant i <= |frags| && PrefixLen(frags, i) + off == offset
      invariant forall j :: 0 < j <= i ==> PrefixLen(frags, j) <= offset
      invariant LocateFrom(frags, i, off) == Locate(frags, offset)
    {
      if off < frags[i].length {
        return;
      }
      off := off - frags[i].length;
      i := i + 1;
    }
  }

  /**
   * The cursor of a freshly posted request starting at fragment i, offset
   * off, lies inside the list and can reach the request's bytes when the
   * request fits in the list from its offset on.
   */
  lemma PostedCursorOk(frags: seq<Fragment>, offset: nat, len: nat, i: nat, off: nat, ep: int)
    requires i <= |frags| && PrefixLen(frags, i) + off == offset
    requires i < |frags| ==> off < frags[i].length
    requires offset + len <= SumFrom(frags, 0)
    ensures CursorOk(frags, Cursor(i, |frags| - i, off, len, ep))
  {
    PrefixPlusSuffix(frags, i);
  }

  /**
   * The alignment test of the post path as written: for a streaming write,
   * the part of the first fragment from the offset on must be a multiple
   * of 64 bytes unless it is the last fragment. Later fragments are not
   * looked at.
   */
  predicate PostMisaligned(st: bool, write: bool, frags: seq<Fragment>, i: nat, off: nat)
    requires i <= |frags|
  {
    st && write && i + 1 < |frags| && off <= frags[i].length && LowBits(frags[i].length - off) != 0
  }

  /**
   * The alignment test that the streaming-send fill applies chunk by
   * chunk, done once at post time: from the offset on, every fragment but
   * the last is a multiple of 64 bytes and the request ends at the end of
   * the list or on a multiple of 64 bytes.
   */
  predicate PostAligned(frags: seq<Fragment>, i: nat, off: nat, len: nat)
    requires i <= |frags|
  {
    var c := Cursor(i, |frags| - i, off, len, 0);
    InteriorAligned(frags, c) && (len == Remaining(frags, c) || LowBits(len) == 0)
  }

  /** A request the corrected check accepts also passes the check as written. */
  lemma PostAlignedPassesCheck(write: bool, frags: seq<Fragment>, i: nat, off: nat, len: nat)
    requires i < |frags| && off <= frags[i].length && PostAligned(frags, i, off, len)
    ensures !PostMisaligned(true, write, frags, i, off)
  {
  }

  /**
   * The property the post-time check is meant to give: a streaming write
   * accepted by the corrected check never fails the alignment test of
   * the fill, however many descriptors the ring has room for.
   */
  lemma PostAlignedFillNeverFails(frags: seq<Fragment>, i: nat, off: nat, len: nat, ep: int, room: nat)
    requires i <= |frags| && PostAligned(frags, i, off, len)
    requires CursorOk(frags, Cursor(i, |frags| - i, off, len, ep))
    ensures !H2cPass(frags, Cursor(i, |frags| - i, off, len, ep), room).failed
  {
    H2cAlignedNeverFails(frags, Cursor(i, |frags| - i, off, len, ep), room);
  }

  /**
   * The check as written looks only at the first fragment. Fragments of
   * 64, 10 and 64 bytes pass it, yet the fill fails on the 10-byte chunk
   * and leaves the entry on its first fragment with 74 bytes to go. The
   * first retry writes the first fragment's 64 bytes again, a duplicate
   * descriptor, and fails on the same chunk with 10 bytes to go; every
   * fill after that fails without writing anything. The corrected check
   * rejects the request.
   */
  lemma PostCheckMissesInteriorFragment()
    ensures var frags := [Fragment(0, 0, 0, 64), Fragment(0, 0, 0, 10), Fragment(0, 0, 0, 64)];
      && !PostMisaligned(true, true, frags, 0, 0)
      && !PostAligned(frags, 0, 0, 138)
      && H2cPass(frags, Cursor(0, 3, 0, 138, 0), 8) == H2cOutcome([Chunk(0, 0, 64, 0, false)], Cursor(1, 2, 0, 74, 0), true)
      && H2cPass(frags, Cursor(0, 3, 0, 74, 0), 8) == H2cOutcome([Chunk(0, 0, 64, 0, false)], Cursor(1, 2, 0, 10, 0), true)
      && H2cPass(frags, Cursor(0, 3, 0, 10, 0), 8) == H2cOutcome([], Cursor(0, 3, 0, 10, 0), true)
  {
    var frags := [Fragment(0, 0, 0, 64), Fragment(0, 0, 0, 10), Fragment(0, 0, 0, 64)];
    assert SumFrom(frags, 0) == 138 by {
      assert SumFrom(frags, 2) == 64 + SumFrom(frags, 3);
    }
  }

  /** A request as the post path stores it in a free entry. */
  function Posted(wr: WorkRequest, i: nat, off: nat): (r: Wqe)
    requires i <= |wr.frags|
    ensures r.state == Submitted && r.wr == wr && r.doneBytes == 0
    ensures r.cur.bytes == wr.len && r.cur.epAddr == wr.epAddr
    ensures r.cur.sg + r.cur.sgNum == |wr.frags| && r.cur.sgOff == off
  {
    Wqe(Submitted, wr, 0, Cursor(i, |wr.frags| - i, off, wr.len, wr.epAddr), 0, 0, 0, 0, 0)
  }

  // ---------------------------------------------------------------------
  // Completion
  // ---------------------------------------------------------------------

  /**
   * A completion report finishes the request: an error, an end-of-transfer
   * request, or all of its length done, unless the entry was cancelled.
   */
  predicate Finishes(e: Wqe, doneBytes: int, err: int)
  {
    (err != 0 || e.wr.eot || e.wr.len == doneBytes) && !e.state.IsCanceled()
  }

  /**
   * The entry after the engine reports `bytesDone` more bytes with error
   * code `err`: the bytes are added, a pending entry goes back to
   * submitted, a finished one becomes done, and an entry cancelled in
   * hardware drops its unprocessed bytes.
   */
  function Retired(e: Wqe, bytesDone: int, err: int): (r: Wqe)
    ensures r.doneBytes == e.doneBytes + bytesDone && r.wr == e.wr
    ensures Finishes(e, e.doneBytes + bytesDone, err) ==> r.state == Done
    ensures r.state == Done ==> Finishes(e, e.doneBytes + bytesDone, err) || e.state == Done
    ensures e.state.IsCanceled() ==> r.state == e.state
    ensures !Finishes(e, e.doneBytes + bytesDone, err) && !e.state.IsCanceled() ==>
      r.state == (if e.state == Pending then Submitted else e.state)
    ensures r.cur.bytes == (if e.state == CanceledHw then 0 else e.cur.bytes)
  {
    var done := e.doneBytes + bytesDone;
    var e1 := e.(doneBytes := done, state := if e.state == Pending then Submitted else e.state);
    if Finishes(e, done, err) then e1.(state := Done)
    else if e1.state == CanceledHw then e1.(cur := e1.cur.(bytes := 0))
    else e1
  }

  /**
   * What the caller of entry w hears from that completion report: a
   * finished blocking request wakes its waiter, a finished non-blocking one
   * gets its callback with the bytes done and success exactly when there
   * was no error, and a non-blocking request cancelled in hardware gets a
   * cancelled callback with no bytes.
   */
  function RetireEvents(w: nat, e: Wqe, bytesDone: int, err: int): (evs: seq<Event>)
    ensures |evs| <= 1
    ensures |evs| == 1 <==>
      Finishes(e, e.doneBytes + bytesDone, err) || (e.state == CanceledHw && !e.wr.block)
    ensures Finishes(e, e.doneBytes + bytesDone, err) && !e.wr.block ==>
      evs == [Callback(w, e.doneBytes + bytesDone, if err != 0 then Error else Success)]
    ensures Finishes(e, e.doneBytes + bytesDone, err) && e.wr.block ==> evs == [Wake(w)]
    ensures !Finishes(e, e.doneBytes + bytesDone, err) && |evs| == 1 ==> evs == [Callback(w, 0, CanceledStatus)]
  {
    var done := e.doneBytes + bytesDone;
    if Finishes(e, done, err) then
      if e.wr.block then [Wake(w)] else [Callback(w, done, if err != 0 then Error else Success)]
    else if e.state == CanceledHw && !e.wr.block then [Callback(w, 0, CanceledStatus)]
    else []
  }

  /** An entry cancelled before the engine saw it, as the completion walk leaves it. */
  function Swept(e: Wqe): (r: Wqe)
    ensures r.state == e.state && r.wr == e.wr && r.doneBytes == e.doneBytes && r.cur.bytes == 0
  {
    e.(cur := e.cur.(bytes := 0))
  }

  // ---------------------------------------------------------------------
  // Statistics
  // ---------------------------------------------------------------------

  /**
   * The free, pending and unprocessed slot counts of a WQE ring of n slots
   * with indices pending p, unprocessed u and free f, each a masked
   * difference of unsigned indices.
   */
  function SlotCounts(p: nat, u: nat, f: nat, n: nat): (nat, nat, nat)
    requires n > 0
  {
    (MaskedDiff(p - f - 1, 0, n), MaskedDiff(u, p, n), MaskedDiff(f, u, n))
  }

  /**
   * The three slot counts add up to one less than the ring size exactly
   * when the unprocessed index lies on the way round from pending to free;
   * otherwise they add up to one less than twice the ring size.
   */
  lemma SlotCountsAddUp(p: nat, u: nat, f: nat, n: nat)
    requires p < n && u < n && f < n
    ensures var (fr, pe, un) := SlotCounts(p, u, f, n);
      (fr + pe + un == n - 1 <==> Between(p, u, f, n))
      && (!Between(p, u, f, n) ==> fr + pe + un == 2 * n - 1)
  {
    MaskedDiffIsOffset(u, p, n);
    MaskedDiffIsOffset(f, u, n);
    MaskedDiffIsOffset(p - f - 1, 0, n);
  }

  /** A masked difference of two indices of a ring of n slots is how far apart they lie. */
  lemma MaskedDiffIsOffset(a: int, b: int, n: nat)
    requires n > 0 && 0 <= a - b + n && a - b < n
    ensures MaskedDiff(a, b, n) == if a - b >= 0 then a - b else a - b + n
  {
    var x := a - b;
    if x >= 0 {
      assert x == 0 * n + x;
    } else {
      assert x == -1 * n + (x + n);
    }
  }
}

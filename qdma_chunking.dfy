/**
 * What one fill pass of each strategy produces, as functions of the WQE's
 * fragment cursor and the free room of the ring it fills. The fill methods
 * of QdmaWq.WorkQueue are proved to leave exactly these results behind;
 * the lemmas here state what the results mean.
 */
module QdmaChunking {
  import opened Wrappers
  import opened QdmaTypes

  /**
   * One descriptor's worth of a block-mode or streaming-send pass: the bus
   * address and length of the bytes, the device address they go to or come
   * from, the fragment they lie in, and whether the fragment was too long
   * and has to be revisited.
   */
  datatype Chunk = Chunk(frag: nat, addr: int, len: nat, ep: int, split: bool)

  /** One cache slot's worth of a streaming-receive pass. */
  datatype Piece = Piece(frag: nat, page: int, offset: int, len: nat)

  function SumLen(cs: seq<Chunk>): nat
  {
    if cs == [] then 0 else cs[0].len + SumLen(cs[1..])
  }

  function SumPieces(ps: seq<Piece>): nat
  {
    if ps == [] then 0 else ps[0].len + SumPieces(ps[1..])
  }

  /** Number of chunks that finish off their fragment. */
  function Whole(cs: seq<Chunk>): nat
  {
    if cs == [] then 0 else (if cs[0].split then 0 else 1) + Whole(cs[1..])
  }

  // ---------------------------------------------------------------------
  // Block mode and streaming send: clamp to the fragment, the request and
  // a maximum descriptor length
  // ---------------------------------------------------------------------

  /**
   * One step of the fill loop: the chunk is the rest of the current
   * fragment, clamped to the bytes left and to `max`; a fragment longer
   * than `max` keeps the cursor on it with the offset moved by `max`.
   */
  function Step(frags: seq<Fragment>, c: Cursor, max: nat): (r: (Chunk, Cursor))
    requires OffsetInside(frags, c) && c.sg < |frags| && max > 0
    ensures OffsetInside(frags, r.1)
  {
    var f := frags[c.sg];
    var len := Min(f.length - c.sgOff, c.bytes);
    if len > max then
      (Chunk(c.sg, f.dmaAddr + c.sgOff, max, c.epAddr, true),
       c.(sgOff := c.sgOff + max, bytes := c.bytes - max, epAddr := c.epAddr + max))
    else
      (Chunk(c.sg, f.dmaAddr + c.sgOff, len, c.epAddr, false),
       Cursor(c.sg + 1, c.sgNum - 1, 0, c.bytes - len, c.epAddr + len))
  }

  /** What one step does to the cursor, for a cursor consistent with its fragments. */
  lemma StepFacts(frags: seq<Fragment>, c: Cursor, max: nat)
    requires CursorOk(frags, c) && c.sg < |frags| && max > 0
    ensures var (ch, c1) := Step(frags, c, max);
      && CursorOk(frags, c1)
      && ch.frag == c.sg && ch.len <= max
      && c1.bytes == c.bytes - ch.len && c1.epAddr == c.epAddr + ch.len
      && c1.sg + c1.sgNum == c.sg + c.sgNum
      && c1.sg == (if ch.split then c.sg else c.sg + 1)
      && (ch.split ==> ch.len == max && c1.bytes > 0 && c1.sgOff == c.sgOff + max)
      && (!ch.split ==> c1.sgOff == 0)
      && (!ch.split && c1.bytes > 0 ==> Remaining(frags, c1) == Remaining(frags, c) - ch.len)
  {
    assert SumFrom(frags, c.sg) == frags[c.sg].length + SumFrom(frags, c.sg + 1);
  }

  /**
   * A block-mode pass with `room` free descriptors: chunks are taken until
   * the request has no bytes left or the ring has no room left. Returns the
   * chunks written and the cursor afterwards.
   */
  function MmPass(frags: seq<Fragment>, c: Cursor, room: nat, max: nat): (r: (seq<Chunk>, Cursor))
    requires OffsetInside(frags, c) && max > 0
    decreases room
  {
    if room == 0 || c.sg >= |frags| then ([], c)
    else
      var (ch, c1) := Step(frags, c, max);
      if c1.bytes == 0 || room == 1 then ([ch], c1)
      else
        var (rest, c2) := MmPass(frags, c1, room - 1, max);
        ([ch] + rest, c2)
  }

  /**
   * Whatever the request, a block-mode pass writes at most `room`
   * descriptors, leaves a consistent cursor and never adds request bytes.
   */
  lemma {:induction false} MmPassBounds(frags: seq<Fragment>, c: Cursor, room: nat, max: nat)
    requires CursorOk(frags, c) && max > 0
    ensures |MmPass(frags, c, room, max).0| <= room
    ensures CursorOk(frags, MmPass(frags, c, room, max).1)
    ensures MmPass(frags, c, room, max).1.bytes <= c.bytes
    decreases room
  {
    if room > 0 && c.sg < |frags| {
      var (ch, c1) := Step(frags, c, max);
      StepFacts(frags, c, max);
      if c1.bytes != 0 && room != 1 {
        MmPassBounds(frags, c1, room - 1, max);
      }
    }
  }

  lemma {:induction false} SumLenAppend(a: seq<Chunk>, b: seq<Chunk>)
    ensures SumLen(a + b) == SumLen(a) + SumLen(b)
    ensures Whole(a + b) == Whole(a) + Whole(b)
  {
    if a == [] {
      assert a + b == b;
    } else {
      assert (a + b)[1..] == a[1..] + b;
      SumLenAppend(a[1..], b);
    }
  }

  lemma {:induction false} SumPiecesAppend(a: seq<Piece>, b: seq<Piece>)
    ensures SumPieces(a + b) == SumPieces(a) + SumPieces(b)
  {
    if a == [] {
      assert a + b == b;
    } else {
      assert (a + b)[1..] == a[1..] + b;
      SumPiecesAppend(a[1..], b);
    }
  }

  /** A cursor with bytes left still has a fragment to read from. */
  lemma BytesLeftMeansFragmentLeft(frags: seq<Fragment>, c: Cursor)
    requires CursorOk(frags, c) && c.bytes > 0
    ensures c.sg < |frags|
  {
  }

  /**
   * A block-mode pass over a request with bytes left and a ring with room
   * writes between one and `room` descriptors, each at most `max` long; it
   * stops exactly when the request or the room is used up; the request's
   * bytes fall, and its device address rises, by the sum of the chunks;
   * the fragment count falls only by the fragments fully consumed.
   */
  lemma {:induction false} MmPassShape(frags: seq<Fragment>, c: Cursor, room: nat, max: nat)
    requires CursorOk(frags, c) && max > 0 && room > 0 && c.bytes > 0
    ensures forall k :: 0 <= k < |MmPass(frags, c, room, max).0| ==> MmPass(frags, c, room, max).0[k].len <= max
    ensures var (cs, c') := MmPass(frags, c, room, max);
      && 1 <= |cs| <= room
      && CursorOk(frags, c')
      && (c'.bytes == 0 || |cs| == room)
      && SumLen(cs) == c.bytes - c'.bytes
      && c'.epAddr == c.epAddr + SumLen(cs)
      && c'.sg == c.sg + Whole(cs)
      && c'.sgNum == c.sgNum - Whole(cs)
    decreases room
  {
    BytesLeftMeansFragmentLeft(frags, c);
    var (ch, c1) := Step(frags, c, max);
    StepFacts(frags, c, max);
    if c1.bytes == 0 || room == 1 {
      assert [ch][1..] == [];
    } else {
      MmPassShape(frags, c1, room - 1, max);
      var (rest, c2) := MmPass(frags, c1, room - 1, max);
      assert ([ch] + rest)[1..] == rest;
    }
  }

  /** A block-mode pass over a request with bytes left, with room, writes at least one descriptor. */
  lemma MmPassProgress(frags: seq<Fragment>, c: Cursor, room: nat, max: nat)
    requires CursorOk(frags, c) && max > 0 && room > 0 && c.bytes > 0
    ensures MmPass(frags, c, room, max).0 != []
  {
    BytesLeftMeansFragmentLeft(frags, c);
  }

  /**
   * The block-mode fill loop as it runs: the chunks written so far in
   * `acc`, and the loop goes on while there is room, a fragment, and either
   * nothing written yet or bytes left. The result is the same whatever
   * iteration it is evaluated from, which is the loop's invariant.
   */
  function MmRun(frags: seq<Fragment>, c: Cursor, room: nat, max: nat, acc: seq<Chunk>): (seq<Chunk>, Cursor)
    requires OffsetInside(frags, c) && max > 0
    decreases room
  {
    if room > 0 && c.sg < |frags| && (acc == [] || c.bytes > 0) then
      var (ch, c1) := Step(frags, c, max);
      MmRun(frags, c1, room - 1, max, acc + [ch])
    else (acc, c)
  }

  /** The running loop continues what has been written with exactly the rest of MmPass. */
  lemma {:induction false} MmRunIsPass(frags: seq<Fragment>, c: Cursor, room: nat, max: nat, acc: seq<Chunk>)
    requires OffsetInside(frags, c) && max > 0 && (acc == [] || c.bytes > 0)
    ensures MmRun(frags, c, room, max, acc) == (acc + MmPass(frags, c, room, max).0, MmPass(frags, c, room, max).1)
    decreases room
  {
    if room > 0 && c.sg < |frags| {
      var (ch, c1) := Step(frags, c, max);
      if c1.bytes == 0 || room == 1 {
        assert MmRun(frags, c1, room - 1, max, acc + [ch]) == (acc + [ch], c1);
      } else {
        MmRunIsPass(frags, c1, room - 1, max, acc + [ch]);
        var rest := MmPass(frags, c1, room - 1, max);
        assert acc + [ch] + rest.0 == acc + ([ch] + rest.0);
      }
    } else {
      assert acc + [] == acc;
    }
  }

  /** Running the loop with room a and then on with room b is running it with room a + b. */
  lemma {:induction false} MmRunResume(frags: seq<Fragment>, c: Cursor, a: nat, b: nat, max: nat, acc: seq<Chunk>)
    requires CursorOk(frags, c) && max > 0
    ensures CursorOk(frags, MmRun(frags, c, a, max, acc).1)
    ensures var r := MmRun(frags, c, a, max, acc);
      MmRun(frags, c, a + b, max, acc) == MmRun(frags, r.1, b, max, r.0)
    decreases a
  {
    if a > 0 && c.sg < |frags| && (acc == [] || c.bytes > 0) {
      StepFacts(frags, c, max);
      var (ch, c1) := Step(frags, c, max);
      MmRunResume(frags, c1, a - 1, b, max, acc + [ch]);
      assert a + b - 1 == (a - 1) + b;
    } else if b > 0 && c.sg < |frags| && (acc == [] || c.bytes > 0) {
      assert a == 0;
    }
  }

  /**
   * Resuming: a pass cut short by the ring's room, followed by a second
   * pass from the cursor it left, writes exactly the chunks that one pass
   * with the combined room would have written, and ends at the same cursor.
   */
  lemma MmPassResume(frags: seq<Fragment>, c: Cursor, a: nat, b: nat, max: nat)
    requires CursorOk(frags, c) && max > 0 && a > 0 && b > 0
    requires MmPass(frags, c, a, max).1.bytes > 0
    ensures var (cs1, c1) := MmPass(frags, c, a, max);
      && CursorOk(frags, c1)
      && MmPass(frags, c, a + b, max) == (cs1 + MmPass(frags, c1, b, max).0, MmPass(frags, c1, b, max).1)
  {
    var (cs1, c1) := MmPass(frags, c, a, max);
    MmRunIsPass(frags, c, a, max, []);
    MmRunIsPass(frags, c, a + b, max, []);
    MmRunResume(frags, c, a, b, max, []);
    assert [] + cs1 == cs1;
    MmRunIsPass(frags, c1, b, max, cs1);
    assert [] + MmPass(frags, c, a + b, max).0 == MmPass(frags, c, a + b, max).0;
  }

  // ---------------------------------------------------------------------
  // Streaming send: page-sized chunks and the 64-byte alignment test
  // ---------------------------------------------------------------------

  /** Outcome of a streaming-send pass; `cur` is the cursor as the pass left it. */
  datatype H2cOutcome = H2cOutcome(chunks: seq<Chunk>, cur: Cursor, failed: bool)

  /**
   * The alignment test of a streaming-send step: a chunk that is not a
   * multiple of 64 bytes while further fragments follow. (For a split chunk
   * the source's fragment counter has been stepped back, so the "further
   * fragments" half always holds there.)
   */
  predicate Misaligned(frags: seq<Fragment>, c: Cursor, ch: Chunk)
  {
    LowBits(ch.len) != 0 && (if ch.split then c.sg < |frags| else c.sg + 1 < |frags|)
  }

  /**
   * A streaming-send pass. A misaligned chunk ends the pass as a failure
   * before it is written; the cursor then carries the offset the step had
   * already stored and the bytes before that chunk. The device address is
   * not advanced in this mode.
   */
  function H2cPass(frags: seq<Fragment>, c: Cursor, room: nat): (r: H2cOutcome)
    requires OffsetInside(frags, c)
    decreases room
  {
    if room == 0 || c.sg >= |frags| then H2cOutcome([], c, false)
    else
      var (ch, c1) := Step(frags, c, PAGE_SIZE);
      if Misaligned(frags, c, ch) then H2cOutcome([], c.(sgOff := c1.sgOff), true)
      else
        var c2 := c1.(epAddr := c.epAddr);
        if c2.bytes == 0 || room == 1 then H2cOutcome([ch], c2, false)
        else
          var rest := H2cPass(frags, c2, room - 1);
          H2cOutcome([ch] + rest.chunks, rest.cur, rest.failed)
  }

  /**
   * A streaming-send pass over a request with bytes left. A pass that
   * succeeds writes between one and `room` descriptors, stops when the
   * request or the room is used up, and lowers the request's bytes by the
   * sum of the chunks; a pass that fails leaves room unused, a zero
   * fragment offset and the bytes lowered by the chunks written before the
   * failure. The device address never moves.
   */
  lemma {:induction false} H2cPassShape(frags: seq<Fragment>, c: Cursor, room: nat)
    requires CursorOk(frags, c) && room > 0 && c.bytes > 0
    ensures var r := H2cPass(frags, c, room);
      && SumLen(r.chunks) == c.bytes - r.cur.bytes
      && r.cur.epAddr == c.epAddr
      && (!r.failed ==>
            && 1 <= |r.chunks| <= room
            && CursorOk(frags, r.cur)
            && (r.cur.bytes == 0 || |r.chunks| == room)
            && r.cur.sg == c.sg + Whole(r.chunks)
            && r.cur.sgNum == c.sgNum - Whole(r.chunks))
      && (r.failed ==> |r.chunks| < room && r.cur.sgOff == 0 && r.cur.bytes > 0)
    decreases room
  {
    BytesLeftMeansFragmentLeft(frags, c);
    var (ch, c1) := Step(frags, c, PAGE_SIZE);
    StepFacts(frags, c, PAGE_SIZE);
    if Misaligned(frags, c, ch) {
    } else {
      var c2 := c1.(epAddr := c.epAddr);
      if c2.bytes == 0 || room == 1 {
        assert [ch][1..] == [];
      } else {
        H2cPassShape(frags, c2, room - 1);
        var rest := H2cPass(frags, c2, room - 1);
        assert ([ch] + rest.chunks)[1..] == rest.chunks;
      }
    }
  }

  /** A streaming-send pass writes at most `room` descriptors and never adds request bytes. */
  lemma {:induction false} H2cPassBounds(frags: seq<Fragment>, c: Cursor, room: nat)
    requires CursorOk(frags, c)
    ensures |H2cPass(frags, c, room).chunks| <= room
    ensures H2cPass(frags, c, room).cur.bytes <= c.bytes
    decreases room
  {
    if room > 0 && c.sg < |frags| {
      var (ch, c1) := Step(frags, c, PAGE_SIZE);
      StepFacts(frags, c, PAGE_SIZE);
      var c2 := c1.(epAddr := c.epAddr);
      if !Misaligned(frags, c, ch) && c2.bytes != 0 && room != 1 {
        H2cPassBounds(frags, c2, room - 1);
      }
    }
  }

  /**
   * Every chunk of a streaming-send pass is at most a page, and every chunk
   * that is not a multiple of 64 bytes lies in the last fragment.
   */
  lemma {:induction false} H2cPassChunks(frags: seq<Fragment>, c: Cursor, room: nat)
    requires CursorOk(frags, c)
    ensures forall k :: 0 <= k < |H2cPass(frags, c, room).chunks| ==>
      H2cPass(frags, c, room).chunks[k].len <= PAGE_SIZE
    ensures forall k :: 0 <= k < |H2cPass(frags, c, room).chunks| && LowBits(H2cPass(frags, c, room).chunks[k].len) != 0 ==>
      H2cPass(frags, c, room).chunks[k].frag == |frags| - 1
    decreases room
  {
    if room == 0 || c.sg >= |frags| {
    } else {
      var (ch, c1) := Step(frags, c, PAGE_SIZE);
      StepFacts(frags, c, PAGE_SIZE);
      if !Misaligned(frags, c, ch) {
        var c2 := c1.(epAddr := c.epAddr);
        assert ch.len <= PAGE_SIZE;
        assert LowBits(ch.len) != 0 ==> ch.frag == |frags| - 1;
        if c2.bytes == 0 || room == 1 {
          assert H2cPass(frags, c, room).chunks == [ch];
        } else {
          H2cPassChunks(frags, c2, room - 1);
          var rest := H2cPass(frags, c2, room - 1);
          var cs := [ch] + rest.chunks;
          assert H2cPass(frags, c, room).chunks == cs;
          forall k | 0 <= k < |cs|
            ensures cs[k].len <= PAGE_SIZE
            ensures LowBits(cs[k].len) != 0 ==> cs[k].frag == |frags| - 1
          {
            if k > 0 {
              assert cs[k] == rest.chunks[k - 1];
              assert rest.chunks[k - 1].len <= PAGE_SIZE;
            } else {
              assert cs[k] == ch;
            }
          }
        }
      }
    }
  }

  /**
   * A failed streaming-send pass stopped on a chunk that finished its
   * fragment (a page-sized split chunk is always aligned), so the offset it
   * stored is zero, and it never adds request bytes.
   */
  lemma {:induction false} H2cFailureOffset(frags: seq<Fragment>, c: Cursor, room: nat)
    requires CursorOk(frags, c)
    ensures H2cPass(frags, c, room).failed ==> H2cPass(frags, c, room).cur.sgOff == 0
    decreases room
  {
    if room > 0 && c.sg < |frags| {
      StepFacts(frags, c, PAGE_SIZE);
      var (ch, c1) := Step(frags, c, PAGE_SIZE);
      var c2 := c1.(epAddr := c.epAddr);
      if !Misaligned(frags, c, ch) && c2.bytes != 0 && room != 1 {
        H2cFailureOffset(frags, c2, room - 1);
      }
    }
  }

  /** After a failed streaming-send pass, the request's cursor with the stored offset and bytes is still in range. */
  lemma H2cFailedCursorOk(frags: seq<Fragment>, c: Cursor, room: nat)
    requires CursorOk(frags, c)
    ensures var r := H2cPass(frags, c, room);
      r.failed ==> CursorOk(frags, c.(sgOff := r.cur.sgOff, bytes := r.cur.bytes))
  {
    H2cFailureOffset(frags, c, room);
    H2cPassBounds(frags, c, room);
  }

  /** A streaming-send pass that does not fail leaves a consistent cursor, whatever the bytes left. */
  lemma {:induction false} H2cPassCursorOk(frags: seq<Fragment>, c: Cursor, room: nat)
    requires CursorOk(frags, c)
    ensures !H2cPass(frags, c, room).failed ==> CursorOk(frags, H2cPass(frags, c, room).cur)
    decreases room
  {
    if room > 0 && c.sg < |frags| {
      var (ch, c1) := Step(frags, c, PAGE_SIZE);
      StepFacts(frags, c, PAGE_SIZE);
      var c2 := c1.(epAddr := c.epAddr);
      if !Misaligned(frags, c, ch) && c2.bytes != 0 && room != 1 {
        H2cPassCursorOk(frags, c2, room - 1);
      }
    }
  }

  /** A streaming-send pass that does not fail writes at least one descriptor for a request with bytes left. */
  lemma H2cPassProgress(frags: seq<Fragment>, c: Cursor, room: nat)
    requires CursorOk(frags, c) && room > 0 && c.bytes > 0
    ensures !H2cPass(frags, c, room).failed ==> H2cPass(frags, c, room).chunks != []
  {
    BytesLeftMeansFragmentLeft(frags, c);
  }

  /**
   * The streaming-send fill loop as it runs, with the chunks written so far
   * in `acc`: the same stopping rule as MmRun, and a misaligned chunk ends
   * it as a failure.
   */
  function H2cRun(frags: seq<Fragment>, c: Cursor, room: nat, acc: seq<Chunk>): H2cOutcome
    requires OffsetInside(frags, c)
    decreases room
  {
    if room > 0 && c.sg < |frags| && (acc == [] || c.bytes > 0) then
      var (ch, c1) := Step(frags, c, PAGE_SIZE);
      if Misaligned(frags, c, ch) then H2cOutcome(acc, c.(sgOff := c1.sgOff), true)
      else H2cRun(frags, c1.(epAddr := c.epAddr), room - 1, acc + [ch])
    else H2cOutcome(acc, c, false)
  }

  /** The running loop continues what has been written with exactly the rest of H2cPass. */
  lemma {:induction false} H2cRunIsPass(frags: seq<Fragment>, c: Cursor, room: nat, acc: seq<Chunk>)
    requires OffsetInside(frags, c) && (acc == [] || c.bytes > 0)
    ensures H2cRun(frags, c, room, acc) ==
      H2cOutcome(acc + H2cPass(frags, c, room).chunks, H2cPass(frags, c, room).cur, H2cPass(frags, c, room).failed)
    decreases room
  {
    if room > 0 && c.sg < |frags| {
      var (ch, c1) := Step(frags, c, PAGE_SIZE);
      if Misaligned(frags, c, ch) {
        assert acc + [] == acc;
      } else {
        var c2 := c1.(epAddr := c.epAddr);
        if c2.bytes == 0 || room == 1 {
          assert H2cRun(frags, c2, room - 1, acc + [ch]) == H2cOutcome(acc + [ch], c2, false);
        } else {
          H2cRunIsPass(frags, c2, room - 1, acc + [ch]);
          var rest := H2cPass(frags, c2, room - 1);
          assert acc + [ch] + rest.chunks == acc + ([ch] + rest.chunks);
        }
      }
    } else {
      assert acc + [] == acc;
    }
  }

  /** The running loop started with nothing written is H2cPass. */
  lemma H2cRunFromStart(frags: seq<Fragment>, c: Cursor, room: nat)
    requires OffsetInside(frags, c)
    ensures H2cRun(frags, c, room, []) == H2cPass(frags, c, room)
  {
    H2cRunIsPass(frags, c, room, []);
    assert [] + H2cPass(frags, c, room).chunks == H2cPass(frags, c, room).chunks;
  }

  /** One aligned chunk of the running loop: the loop goes on from the cursor after it, or stops there. */
  lemma H2cRunStep(frags: seq<Fragment>, c: Cursor, room: nat, acc: seq<Chunk>)
    requires OffsetInside(frags, c) && room > 0 && c.sg < |frags| && (acc == [] || c.bytes > 0)
    requires !Misaligned(frags, c, Step(frags, c, PAGE_SIZE).0)
    ensures var (ch, c1) := Step(frags, c, PAGE_SIZE);
      && OffsetInside(frags, c1.(epAddr := c.epAddr))
      && H2cRun(frags, c, room, acc) == H2cRun(frags, c1.(epAddr := c.epAddr), room - 1, acc + [ch])
      && (c1.bytes == 0 || room == 1 ==> H2cRun(frags, c, room, acc) == H2cOutcome(acc + [ch], c1.(epAddr := c.epAddr), false))
  {
  }

  /**
   * What a streaming send needs to pass the fill's alignment test: unless
   * the cursor is in the last fragment, the rest of its fragment is a
   * multiple of 64 bytes, so is every later fragment but the last, and the
   * request ends at the end of the list or at a multiple of 64 bytes.
   */
  predicate InteriorAligned(frags: seq<Fragment>, c: Cursor)
  {
    && (c.sg + 1 < |frags| ==> (frags[c.sg].length - c.sgOff) % 64 == 0)
    && (forall j :: c.sg < j < |frags| - 1 ==> frags[j].length % 64 == 0)
    && (c.bytes == Remaining(frags, c) || c.bytes % 64 == 0)
  }

  /** An aligned cursor takes an aligned step and stays aligned. */
  lemma AlignedStep(frags: seq<Fragment>, c: Cursor)
    requires CursorOk(frags, c) && InteriorAligned(frags, c) && c.sg < |frags|
    ensures var (ch, c1) := Step(frags, c, PAGE_SIZE);
      && !Misaligned(frags, c, ch)
      && CursorOk(frags, c1.(epAddr := c.epAddr))
      && InteriorAligned(frags, c1.(epAddr := c.epAddr))
  {
    var (ch, c1) := Step(frags, c, PAGE_SIZE);
    StepFacts(frags, c, PAGE_SIZE);
    if !ch.split && c.sg + 1 < |frags| {
      if c.bytes == Remaining(frags, c) {
        assert SumFrom(frags, c.sg) == frags[c.sg].length + SumFrom(frags, c.sg + 1);
      }
      assert LowBits(ch.len) == 0;
    }
  }

  /**
   * Fragments whose interior boundaries are 64-byte aligned never fail the
   * streaming-send alignment test, provided the request ends at the end of
   * the list or at a multiple of 64 bytes.
   */
  lemma {:induction false} H2cAlignedNeverFails(frags: seq<Fragment>, c: Cursor, room: nat)
    requires CursorOk(frags, c) && InteriorAligned(frags, c)
    ensures !H2cPass(frags, c, room).failed
    decreases room
  {
    if room > 0 && c.sg < |frags| {
      var (ch, c1) := Step(frags, c, PAGE_SIZE);
      AlignedStep(frags, c);
      var c2 := c1.(epAddr := c.epAddr);
      if c2.bytes != 0 && room != 1 {
        H2cAlignedNeverFails(frags, c2, room - 1);
      }
    }
  }

  // ---------------------------------------------------------------------
  // Streaming receive: one cache slot per fragment
  // ---------------------------------------------------------------------

  /** One step of the receive fill: the rest of the fragment, clamped to the bytes left. */
  function C2hStep(frags: seq<Fragment>, c: Cursor): (r: (Piece, Cursor))
    requires OffsetInside(frags, c) && c.sg < |frags|
    ensures OffsetInside(frags, r.1)
  {
    var f := frags[c.sg];
    var len := Min(f.length - c.sgOff, c.bytes);
    (Piece(c.sg, f.page, f.offset + c.sgOff, len),
     Cursor(c.sg + 1, c.sgNum - 1, 0, c.bytes - len, c.epAddr))
  }

  /** What one receive step does to the cursor, for a cursor consistent with its fragments. */
  lemma C2hStepFacts(frags: seq<Fragment>, c: Cursor)
    requires CursorOk(frags, c) && c.sg < |frags|
    ensures var (p, c1) := C2hStep(frags, c);
      && CursorOk(frags, c1)
      && c1.bytes == c.bytes - p.len
      && c1.sg == c.sg + 1 && c1.sgNum == c.sgNum - 1 && c1.sgOff == 0
  {
    assert SumFrom(frags, c.sg) == frags[c.sg].length + SumFrom(frags, c.sg + 1);
  }

  /** A streaming-receive pass with `room` free cache slots. */
  function C2hPass(frags: seq<Fragment>, c: Cursor, room: nat): (r: (seq<Piece>, Cursor))
    requires OffsetInside(frags, c)
    decreases room
  {
    if room == 0 || c.sg >= |frags| then ([], c)
    else
      var (p, c1) := C2hStep(frags, c);
      if c1.bytes == 0 || room == 1 then ([p], c1)
      else
        var (rest, c2) := C2hPass(frags, c1, room - 1);
        ([p] + rest, c2)
  }

  /** The streaming-receive fill loop as it runs, with the slots filled so far in `acc`. */
  function C2hRun(frags: seq<Fragment>, c: Cursor, room: nat, acc: seq<Piece>): (seq<Piece>, Cursor)
    requires OffsetInside(frags, c)
    decreases room
  {
    if room > 0 && c.sg < |frags| && (acc == [] || c.bytes > 0) then
      var (p, c1) := C2hStep(frags, c);
      C2hRun(frags, c1, room - 1, acc + [p])
    else (acc, c)
  }

  /** The running loop continues what has been filled with exactly the rest of C2hPass. */
  lemma {:induction false} C2hRunIsPass(frags: seq<Fragment>, c: Cursor, room: nat, acc: seq<Piece>)
    requires OffsetInside(frags, c) && (acc == [] || c.bytes > 0)
    ensures C2hRun(frags, c, room, acc) == (acc + C2hPass(frags, c, room).0, C2hPass(frags, c, room).1)
    decreases room
  {
    if room > 0 && c.sg < |frags| {
      var (p, c1) := C2hStep(frags, c);
      if c1.bytes == 0 || room == 1 {
        assert C2hRun(frags, c1, room - 1, acc + [p]) == (acc + [p], c1);
      } else {
        C2hRunIsPass(frags, c1, room - 1, acc + [p]);
        var rest := C2hPass(frags, c1, room - 1);
        assert acc + [p] + rest.0 == acc + ([p] + rest.0);
      }
    } else {
      assert acc + [] == acc;
    }
  }

  /** The running loop started with nothing filled is C2hPass. */
  lemma C2hRunFromStart(frags: seq<Fragment>, c: Cursor, room: nat)
    requires OffsetInside(frags, c)
    ensures C2hRun(frags, c, room, []) == C2hPass(frags, c, room)
  {
    C2hRunIsPass(frags, c, room, []);
    assert [] + C2hPass(frags, c, room).0 == C2hPass(frags, c, room).0;
  }

  /**
   * A streaming-receive pass takes at most `room` cache slots, leaves a
   * consistent cursor and never adds request bytes.
   */
  lemma {:induction false} C2hPassBounds(frags: seq<Fragment>, c: Cursor, room: nat)
    requires CursorOk(frags, c)
    ensures |C2hPass(frags, c, room).0| <= room
    ensures CursorOk(frags, C2hPass(frags, c, room).1)
    ensures C2hPass(frags, c, room).1.bytes <= c.bytes
    decreases room
  {
    if room > 0 && c.sg < |frags| {
      var (p, c1) := C2hStep(frags, c);
      C2hStepFacts(frags, c);
      if c1.bytes != 0 && room != 1 {
        C2hPassBounds(frags, c1, room - 1);
      }
    }
  }

  /**
   * A streaming-receive pass over a request with bytes left takes between
   * one and `room` cache slots, one per fragment it touches; the request's
   * bytes fall by the sum of the slot lengths; it stops exactly when the
   * request or the cache is used up, and leaves no offset inside a fragment.
   */
  lemma {:induction false} C2hPassShape(frags: seq<Fragment>, c: Cursor, room: nat)
    requires CursorOk(frags, c) && room > 0 && c.bytes > 0
    ensures var (ps, c') := C2hPass(frags, c, room);
      && 1 <= |ps| <= room
      && CursorOk(frags, c')
      && c'.sg == c.sg + |ps| && c'.sgNum == c.sgNum - |ps| && c'.sgOff == 0
      && (c'.bytes == 0 || |ps| == room)
      && SumPieces(ps) == c.bytes - c'.bytes
    decreases room
  {
    BytesLeftMeansFragmentLeft(frags, c);
    var (p, c1) := C2hStep(frags, c);
    C2hStepFacts(frags, c);
    if c1.bytes == 0 || room == 1 {
      assert [p][1..] == [];
    } else {
      C2hPassShape(frags, c1, room - 1);
      var (rest, c2) := C2hPass(frags, c1, room - 1);
      assert ([p] + rest)[1..] == rest;
    }
  }

  /**
   * The slots of a streaming-receive pass follow the fragments in order:
   * slot k holds fragment c.sg + k from its page offset (the first one from
   * the resume offset too), and every slot but the last holds the whole
   * rest of its fragment.
   */
  lemma {:induction false} C2hPassSlots(frags: seq<Fragment>, c: Cursor, room: nat)
    requires CursorOk(frags, c)
    ensures forall k :: 0 <= k < |C2hPass(frags, c, room).0| ==>
      && c.sg + k < |frags|
      && C2hPass(frags, c, room).0[k].frag == c.sg + k
      && C2hPass(frags, c, room).0[k].page == frags[c.sg + k].page
      && C2hPass(frags, c, room).0[k].offset == frags[c.sg + k].offset + (if k == 0 then c.sgOff else 0)
      && (k < |C2hPass(frags, c, room).0| - 1 ==>
            C2hPass(frags, c, room).0[k].len == frags[c.sg + k].length - (if k == 0 then c.sgOff else 0))
    decreases room
  {
    if room == 0 || c.sg >= |frags| {
      assert C2hPass(frags, c, room).0 == [];
    } else {
      var (p, c1) := C2hStep(frags, c);
      C2hStepFacts(frags, c);
      if c1.bytes == 0 || room == 1 {
        assert C2hPass(frags, c, room).0 == [p];
      } else {
        C2hPassSlots(frags, c1, room - 1);
        var (rest, c2) := C2hPass(frags, c1, room - 1);
        var ps := [p] + rest;
        assert C2hPass(frags, c, room).0 == ps;
        forall k | 0 <= k < |ps|
          ensures c.sg + k < |frags| && ps[k].frag == c.sg + k && ps[k].page == frags[c.sg + k].page
          ensures ps[k].offset == frags[c.sg + k].offset + (if k == 0 then c.sgOff else 0)
          ensures k < |ps| - 1 ==> ps[k].len == frags[c.sg + k].length - (if k == 0 then c.sgOff else 0)
        {
          if k > 0 { assert ps[k] == rest[k - 1]; }
        }
      }
    }
  }

  // ---------------------------------------------------------------------
  // What a pass leaves in the rings
  // ---------------------------------------------------------------------

  /** A block-mode descriptor as the fill loop writes it: addresses, length, flags cleared. */
  function MmDescWrite(d: Desc, ch: Chunk, c2h: bool): Desc
  {
    d.(src := if c2h then ch.ep else ch.addr,
       dst := if c2h then ch.addr else ch.ep,
       len := ch.len, sop := false, eop := false)
  }

  /**
   * The block-mode descriptor k places after the pass's first slot: the
   * chunk's addresses (device side as source for c2h), its length, no SOP
   * (the length store clears it) and EOP on the last one. A pass that
   * writes nothing still marks SOP and EOP on the first slot.
   */
  function MmRingSlot(d: Desc, k: nat, cs: seq<Chunk>, c2h: bool): Desc
  {
    if k < |cs| then MmDescWrite(d, cs[k], c2h).(eop := k == |cs| - 1)
    else if k == 0 && cs == [] then d.(sop := true, eop := true)
    else d
  }

  /** The whole descriptor ring after a block-mode pass that started at slot p. */
  function MmRing(ring: seq<Desc>, p: nat, cs: seq<Chunk>, c2h: bool): (r: seq<Desc>)
    requires p < |ring|
    ensures |r| == |ring|
  {
    seq(|ring|, j requires 0 <= j < |ring| => MmRingSlot(ring[j], RingOffset(p, j, |ring|), cs, c2h))
  }

  /** A streaming-send descriptor as the fill loop writes it: address, length, EOT cleared with stream flags. */
  function H2cDescWrite(d: Desc, ch: Chunk, stmEn: bool): Desc
  {
    d.(src := ch.addr, len := ch.len, eot := if stmEn then false else d.eot)
  }

  /**
   * The streaming-send descriptor k places after the pass's first slot:
   * SOP on the first, EOP on the last of a pass that succeeded, EOT on the
   * last when `markEot`, EOT cleared on the others when the engine has
   * streaming flags (`stmEn`). On failure the slot after the written ones
   * has had its flags reset but nothing else written.
   */
  function H2cRingSlot(d: Desc, k: nat, r: H2cOutcome, stmEn: bool, markEot: bool): Desc
  {
    var cs := r.chunks;
    if k < |cs| then
      var last := !r.failed && k == |cs| - 1;
      var w := H2cDescWrite(d, cs[k], stmEn).(sop := k == 0, eop := last);
      if last && markEot then w.(eot := true) else w
    else if k == |cs| && r.failed then d.(sop := k == 0, eop := false)
    else if k == 0 && cs == [] then d.(sop := true, eop := true, eot := if markEot then true else d.eot)
    else d
  }

  /** The whole descriptor ring after a streaming-send pass that started at slot p. */
  function H2cRing(ring: seq<Desc>, p: nat, r: H2cOutcome, stmEn: bool, markEot: bool): (res: seq<Desc>)
    requires p < |ring|
    ensures |res| == |ring|
  {
    seq(|ring|, j requires 0 <= j < |ring| => H2cRingSlot(ring[j], RingOffset(p, j, |ring|), r, stmEn, markEot))
  }

  /** The cache slot k places after the pass's first slot: one piece each, chained by index. */
  function C2hCacheSlot(s: SgSlot, k: nat, ps: seq<Piece>, start: nat, n: nat): SgSlot
    requires start < n && |ps| < n
  {
    if k < |ps| then
      SgSlot(ps[k].page, ps[k].offset, ps[k].len,
             if k == |ps| - 1 then None else Some(RingPos(start, k + 1, n)))
    else s
  }

  /** The whole cache after a streaming-receive pass that started at slot p. */
  function C2hCache(cache: seq<SgSlot>, p: nat, ps: seq<Piece>): (r: seq<SgSlot>)
    requires p < |cache| && |ps| < |cache|
    ensures |r| == |cache|
  {
    seq(|cache|, j requires 0 <= j < |cache| => C2hCacheSlot(cache[j], RingOffset(p, j, |cache|), ps, p, |cache|))
  }
}

/**
 * Values shared by the QDMA work-queue model: constants, error numbers,
 * request fragments, the per-WQE cursor, descriptor and cache slots, and
 * the modular index arithmetic of the power-of-two rings.
 */
module QdmaTypes {
  import opened Wrappers

  // ---------------------------------------------------------------------
  // Constants (the driver headers that define them are not part of this
  // model; the values below are the ones those headers use on x86-64)
  // ---------------------------------------------------------------------

  /** Page size, the largest streaming-send chunk and the c2h buffer size. */
  const PAGE_SIZE: nat := 4096
  /** Largest length a block-mode descriptor can carry (28 length bits). */
  const QDMA_DESC_BLEN_MAX: nat := 0x0FFF_FFFF
  /** Streaming sends need interior chunks that are multiples of 64 bytes. */
  const QDMA_ST_H2C_MASK: nat := 0x3f

  const ENOENT: int := 2
  const EAGAIN: int := 11
  const ENOMEM: int := 12
  const EFAULT: int := 14
  const EINVAL: int := 22

  /** `len & QDMA_ST_H2C_MASK` for a non-negative length. */
  function LowBits(len: nat): (r: nat)
    ensures r < 64
    ensures r == 0 <==> len % 64 == 0
  {
    len % (QDMA_ST_H2C_MASK + 1)
  }

  // ---------------------------------------------------------------------
  // Entities
  // ---------------------------------------------------------------------

  /** Lifecycle of a work-queue entry. */
  datatype WqeState = Submitted | Pending | Done | Canceled | CanceledHw {
    predicate IsCanceled() { this == Canceled || this == CanceledHw }
  }

  /** One scatter-gather fragment: its bus address, page, page offset and length. */
  datatype Fragment = Fragment(dmaAddr: int, page: int, offset: nat, length: nat)

  /**
   * The fragment cursor of a WQE: index of the next unprocessed fragment
   * (`unproc_sg`), fragments left (`unproc_sg_num`), offset inside the
   * fragment (`unproc_sg_off`), request bytes left (`unproc_bytes`) and the
   * device address of the next byte (`unproc_ep_addr`).
   */
  datatype Cursor = Cursor(sg: nat, sgNum: int, sgOff: nat, bytes: nat, epAddr: int)

  /** The caller's request (`struct qdma_wr`), fragments given as a sequence. */
  datatype WorkRequest = WorkRequest(
    frags: seq<Fragment>, offset: nat, len: nat, write: bool, eot: bool,
    block: bool, epAddr: int)

  /**
   * A work-queue entry. `count`, `cbOffset`, `descNr`, `sgl` and `sgcnt`
   * are the request fields the fill strategies maintain (`wr.req.count`,
   * `cb->offset`, `cb->desc_nr`, `wr.req.sgl`, `wr.req.sgcnt`).
   */
  datatype Wqe = Wqe(
    state: WqeState, wr: WorkRequest, doneBytes: int, cur: Cursor,
    count: int, cbOffset: int, descNr: nat, sgl: nat, sgcnt: nat)

  /**
   * A hardware descriptor slot. Block mode uses src, dst, len and the
   * SOP/EOP bits; streaming send uses src, len, SOP/EOP and EOT.
   */
  datatype Desc = Desc(src: int, dst: int, len: int, sop: bool, eop: bool, eot: bool)

  /** A slot of the scatter-gather cache, linked to the next by index. */
  datatype SgSlot = SgSlot(page: int, offset: int, len: int, next: Option<nat>)

  /** Outcome reported to a non-blocking caller. */
  datatype Status = Success | Error | CanceledStatus

  /** What completion delivers: a wake-up of a blocked caller or a callback. */
  datatype Event = Wake(wqe: nat) | Callback(wqe: nat, doneBytes: int, status: Status)

  // ---------------------------------------------------------------------
  // Fragment arithmetic
  // ---------------------------------------------------------------------

  /** Total length of the fragments from index k on. */
  function SumFrom(frags: seq<Fragment>, k: nat): nat
    decreases |frags| - k
  {
    if k >= |frags| then 0 else frags[k].length + SumFrom(frags, k + 1)
  }

  /** Bytes still addressable by the cursor: the fragments from c.sg on, minus the offset. */
  function Remaining(frags: seq<Fragment>, c: Cursor): int
  {
    SumFrom(frags, c.sg) - c.sgOff
  }

  /**
   * A cursor is consistent with its fragment list: sg + sgNum is the list
   * length, the offset lies inside the current fragment, and the request
   * bytes left fit in what the fragments still hold.
   */
  predicate CursorOk(frags: seq<Fragment>, c: Cursor)
  {
    && c.sgNum >= 0
    && c.sg + c.sgNum == |frags|
    && (c.sgOff == 0 || (c.sg < |frags| && c.sgOff < frags[c.sg].length))
    && c.bytes <= Remaining(frags, c)
  }

  /** The offset lies inside the current fragment, when there is one (a part of CursorOk). */
  predicate OffsetInside(frags: seq<Fragment>, c: Cursor)
  {
    c.sg < |frags| ==> c.sgOff <= frags[c.sg].length
  }

  function Min(a: int, b: int): int { if a <= b then a else b }

  // ---------------------------------------------------------------------
  // Ring arithmetic
  // ---------------------------------------------------------------------

  /** n is a power of two. */
  predicate IsPow2(n: nat)
  {
    if n == 1 then true else n > 1 && n % 2 == 0 && IsPow2(n / 2)
  }

  /** `1 << (ffs(n) - 1)`: the lowest set bit of a positive n. */
  function LowestSetBit(n: nat): (r: nat)
    requires n > 0
    ensures 0 < r <= n
  {
    if n % 2 == 1 then 1 else 2 * LowestSetBit(n / 2)
  }

  /** The slot after i in a ring of n slots. */
  function NextIdx(i: nat, n: nat): (r: nat)
    requires i < n
    ensures r < n
  {
    if i + 1 == n then 0 else i + 1
  }

  /** The source's `(i + 1) & (n - 1)`, for a ring of n slots, is NextIdx. */
  lemma NextIdxIsMasked(i: nat, n: nat)
    requires i < n
    ensures NextIdx(i, n) == (i + 1) % n
  {
  }

  /** The slot k places after p in a ring of n slots (k < n). */
  function RingPos(p: nat, k: nat, n: nat): (r: nat)
    requires p < n && k < n
    ensures r < n
  {
    if p + k < n then p + k else p + k - n
  }

  /** How many places slot j lies after slot p: `(j - p) & (n - 1)`. */
  function RingOffset(p: nat, j: nat, n: nat): (r: nat)
    requires p < n && j < n
    ensures r < n
  {
    if j >= p then j - p else j + n - p
  }

  /** The create-time check `qlen == 1 << (ffs(qlen) - 1)` accepts exactly the powers of two. */
  lemma {:induction false} LowestSetBitIsSelfIffPow2(n: nat)
    requires n > 0
    ensures LowestSetBit(n) == n <==> IsPow2(n)
  {
    if n % 2 == 0 {
      LowestSetBitIsSelfIffPow2(n / 2);
    }
  }

  /** RingPos and RingOffset are inverse: walking k places and measuring gives k back. */
  lemma RingPosOffset(p: nat, k: nat, n: nat)
    requires p < n && k < n
    ensures RingOffset(p, RingPos(p, k, n), n) == k
  {
  }

  /**
   * Slot u lies on the way from p to f going round the ring: the three WQE
   * indices pending, unprocessed and free keep this order.
   */
  predicate Between(p: nat, u: nat, f: nat, n: nat)
    requires p < n && u < n && f < n
  {
    if p <= f then p <= u <= f else p <= u || u <= f
  }

  /** Order on the way round to f is transitive. */
  lemma BetweenTrans(a: nat, b: nat, c: nat, f: nat, n: nat)
    requires a < n && b < n && c < n && f < n && Between(a, b, f, n) && Between(b, c, f, n)
    ensures Between(a, c, f, n)
  {
  }

  /** Advancing the middle index towards the last keeps the order and shortens the distance. */
  lemma AdvanceMiddle(p: nat, u: nat, f: nat, n: nat)
    requires p < n && u < n && f < n && Between(p, u, f, n) && u != f
    ensures Between(p, NextIdx(u, n), f, n)
    ensures RingOffset(NextIdx(u, n), f, n) == RingOffset(u, f, n) - 1
    ensures RingOffset(p, NextIdx(u, n), n) == RingOffset(p, u, n) + 1
  {
  }

  /** Advancing the first index towards the middle keeps the order. */
  lemma AdvanceFirst(p: nat, u: nat, f: nat, n: nat)
    requires p < n && u < n && f < n && Between(p, u, f, n) && p != u
    ensures Between(NextIdx(p, n), u, f, n)
    ensures RingOffset(NextIdx(p, n), u, n) == RingOffset(p, u, n) - 1
  {
  }

  /** Advancing the last index keeps the order unless it would reach the first. */
  lemma AdvanceLast(p: nat, u: nat, f: nat, n: nat)
    requires p < n && u < n && f < n && Between(p, u, f, n) && NextIdx(f, n) != p
    ensures Between(p, u, NextIdx(f, n), n)
  {
  }

  /** `(a - b) & (n - 1)` on unsigned indices of a power-of-two ring of n slots. */
  function MaskedDiff(a: int, b: int, n: nat): (r: nat)
    requires n > 0
    ensures r < n
  {
    (a - b) % n
  }
}

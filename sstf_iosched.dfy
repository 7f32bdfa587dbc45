/**
 * The "sstf" elevator: pending requests wait in a FIFO list, and each
 * dispatch sends out the one whose start sector is nearest the end of the
 * previously dispatched request.
 */
module SstfIosched {
  import opened Wrappers

  /** Largest value of `sector_t` (64-bit). */
  const SECTOR_T_MAX: nat := 0xFFFF_FFFF_FFFF_FFFF

  /**
   * A queued request: `tag` stands for its identity (the struct's address),
   * `pos` for blk_rq_pos and `sectors` for blk_rq_sectors.
   */
  datatype Request = Request(tag: nat, pos: nat, sectors: nat)

  /** |a - b| as sstf_dispatch computes it, subtracting the smaller from the larger. */
  function Dist(a: nat, b: nat): (d: nat)
    ensures d == a - b || d == b - a
  {
    if a >= b then a - b else b - a
  }

  /**
   * `k` is the request SSTF dispatches: no queued request starts nearer to
   * `head`, and every request queued before `k` is strictly farther away.
   */
  ghost predicate IsNearest(queue: seq<Request>, head: nat, k: nat) {
    k < |queue|
    && (forall j :: 0 <= j < |queue| ==> Dist(queue[k].pos, head) <= Dist(queue[j].pos, head))
    && (forall j :: 0 <= j < k ==> Dist(queue[k].pos, head) < Dist(queue[j].pos, head))
  }

  /** The nearest request is determined uniquely: ties go to the earliest. */
  lemma NearestIsUnique(queue: seq<Request>, head: nat, k1: nat, k2: nat)
    requires IsNearest(queue, head, k1) && IsNearest(queue, head, k2)
    ensures k1 == k2
  {
    assert Dist(queue[k1].pos, head) <= Dist(queue[k2].pos, head);
    assert Dist(queue[k2].pos, head) <= Dist(queue[k1].pos, head);
  }

  /** The queue with its k-th request unlinked (list_del_init). */
  function RemoveAt(queue: seq<Request>, k: nat): (r: seq<Request>)
    requires k < |queue|
    ensures |r| == |queue| - 1
    ensures forall j :: 0 <= j < k ==> r[j] == queue[j]
    ensures forall j :: k <= j < |r| ==> r[j] == queue[j + 1]
    ensures multiset(r) + multiset{queue[k]} == multiset(queue)
  {
    assert queue == queue[..k] + [queue[k]] + queue[k + 1..];
    queue[..k] + queue[k + 1..]
  }

  /** Some queued request is the struct `tag` names. */
  ghost predicate Linked(queue: seq<Request>, tag: nat) {
    exists j :: 0 <= j < |queue| && queue[j].tag == tag
  }

  /** No request struct is linked into the queue twice. */
  ghost predicate Distinct(queue: seq<Request>) {
    forall i, j :: 0 <= i < j < |queue| ==> queue[i].tag != queue[j].tag
  }

  /** Removing one request keeps the others distinct, and the removed struct is gone. */
  lemma RemoveAtDistinct(queue: seq<Request>, k: nat)
    requires k < |queue| && Distinct(queue)
    ensures Distinct(RemoveAt(queue, k))
    ensures !Linked(RemoveAt(queue, k), queue[k].tag)
  {
    var r := RemoveAt(queue, k);
    forall i, j | 0 <= i < j < |r|
      ensures r[i].tag != r[j].tag
    {
      var i', j' := if i < k then i else i + 1, if j < k then j else j + 1;
      assert r[i] == queue[i'] && r[j] == queue[j'] && i' < j';
    }
    forall j | 0 <= j < |r|
      ensures r[j].tag != queue[k].tag
    {
      var j' := if j < k then j else j + 1;
      assert r[j] == queue[j'] && j' != k;
    }
  }

  /**
   * The scan of sstf_dispatch with full-width distances: `prev` is -1 until a
   * request has been seen, then the smallest distance so far, replaced only by
   * a strictly smaller one.
   */
  method SelectNearest(queue: seq<Request>, head: nat) returns (k: nat)
    requires |queue| > 0
    ensures IsNearest(queue, head, k)
  {
    var prev: int := -1;
    k := 0;
    var i := 0;
    while i < |queue|
      invariant 0 <= i <= |queue| && k <= i
      invariant i == 0 <==> prev == -1
      invariant i > 0 ==> k < i && prev == Dist(queue[k].pos, head)
      invariant forall j :: 0 <= j < i ==> prev <= Dist(queue[j].pos, head)
      invariant forall j :: 0 <= j < k ==> prev < Dist(queue[j].pos, head)
    {
      var temp := Dist(queue[i].pos, head);
      if prev > temp || prev == -1 {
        prev := temp;
        k := i;
      }
      i := i + 1;
    }
  }

  // ---------------------------------------------------------------------------
  // The scan as written: `temp` and `prev` are C `int`s.

  /** A `sector_t` value converted to a 32-bit `int`: reduced modulo 2^32, two's complement. */
  function ToInt32(x: nat): (r: int)
    ensures -0x8000_0000 <= r < 0x8000_0000
    ensures (r - x) % 0x1_0000_0000 == 0
    ensures x < 0x8000_0000 ==> r == x
  {
    var m := x % 0x1_0000_0000;
    if m < 0x8000_0000 then m else m - 0x1_0000_0000
  }

  /** The loop of sstf_dispatch from position `i` on, with `temp = prev_sector - sec` truncated to `int`. */
  function ScanAsWritten(queue: seq<Request>, head: nat, i: nat, prev: int, best: nat): (k: nat)
    requires i <= |queue|
    ensures k == best || i <= k < |queue|
    decreases |queue| - i
  {
    if i == |queue| then best
    else
      var temp := ToInt32(Dist(queue[i].pos, head));
      if prev > temp || prev == -1 then ScanAsWritten(queue, head, i + 1, temp, i)
      else ScanAsWritten(queue, head, i + 1, prev, best)
  }

  /**
   * The request sstf_dispatch as written picks: `prev == -1` makes the first
   * request the candidate, so a non-empty list always yields a queued request.
   */
  function PickAsWritten(queue: seq<Request>, head: nat): (k: nat)
    ensures |queue| > 0 ==> k < |queue|
  {
    ScanAsWritten(queue, head, 0, -1, 0)
  }

  /** Every distance fits in 31 bits, so the `int` conversion loses nothing. */
  ghost predicate Near(queue: seq<Request>, head: nat) {
    forall j :: 0 <= j < |queue| ==> Dist(queue[j].pos, head) < 0x8000_0000
  }

  lemma {:induction false} ScanAsWrittenFindsNearest(queue: seq<Request>, head: nat, i: nat, prev: int, best: nat)
    requires Near(queue, head)
    requires 0 < i <= |queue|
    requires best < i && prev == Dist(queue[best].pos, head)
    requires forall j :: 0 <= j < i ==> prev <= Dist(queue[j].pos, head)
    requires forall j :: 0 <= j < best ==> prev < Dist(queue[j].pos, head)
    ensures IsNearest(queue, head, ScanAsWritten(queue, head, i, prev, best))
    decreases |queue| - i
  {
    if i < |queue| {
      var temp := ToInt32(Dist(queue[i].pos, head));
      assert temp == Dist(queue[i].pos, head);
      if prev > temp {
        ScanAsWrittenFindsNearest(queue, head, i + 1, temp, i);
      } else {
        ScanAsWrittenFindsNearest(queue, head, i + 1, prev, best);
      }
    }
  }

  /** When every request is within 2^31 sectors of the head, the code as written picks the nearest one. */
  lemma PickAsWrittenIsNearestWhenNear(queue: seq<Request>, head: nat)
    requires |queue| > 0 && Near(queue, head)
    ensures IsNearest(queue, head, PickAsWritten(queue, head))
  {
    var temp := ToInt32(Dist(queue[0].pos, head));
    assert ScanAsWritten(queue, head, 0, -1, 0) == ScanAsWritten(queue, head, 1, temp, 0);
    ScanAsWrittenFindsNearest(queue, head, 1, temp, 0);
  }

  /**
   * With the head at sector 0 and requests at sectors 1 and 2^32, the distance
   * 2^32 becomes 0 in an `int` and the far request is dispatched.
   */
  lemma TruncatedDistancePicksFarRequest()
    ensures var queue := [Request(0, 1, 8), Request(1, 0x1_0000_0000, 8)];
      PickAsWritten(queue, 0) == 1 && !IsNearest(queue, 0, 1)
  {
    var queue := [Request(0, 1, 8), Request(1, 0x1_0000_0000, 8)];
    assert ToInt32(Dist(queue[0].pos, 0)) == 1;
    assert ToInt32(Dist(queue[1].pos, 0)) == 0;
    assert ScanAsWritten(queue, 0, 0, -1, 0) == ScanAsWritten(queue, 0, 1, 1, 0);
    assert ScanAsWritten(queue, 0, 1, 1, 0) == ScanAsWritten(queue, 0, 2, 0, 1);
    assert Dist(queue[1].pos, 0) > Dist(queue[0].pos, 0);
  }

  // ---------------------------------------------------------------------------

  /** What sstf_exit_queue does: free the scheduler data, or hit BUG_ON. */
  datatype ExitOutcome = Freed | Bug

  /**
   * The scheduler state: the FIFO list of `sstf_data` and the end sector of
   * the last dispatched request, `prev_sector`.
   */
  class SstfScheduler {
    var queue: seq<Request>
    var prevSector: nat

    ghost predicate Valid()
      reads this
    {
      Distinct(queue)
      && prevSector <= SECTOR_T_MAX
      && forall j :: 0 <= j < |queue| ==> queue[j].pos + queue[j].sectors <= SECTOR_T_MAX
    }

    /**
     * sstf_init_queue: an empty list. `prev_sector` is a static that is 0 when
     * the module loads and that sstf_init_queue does not reset, so the head
     * starts at 0 only for the first elevator set up after loading.
     */
    constructor Init()
      ensures Valid() && queue == [] && prevSector == 0
    {
      queue := [];
      prevSector := 0;
    }

    /** sstf_add_request: list_add_tail. */
    method AddRequest(rq: Request)
      requires Valid()
      requires !Linked(queue, rq.tag)
      requires rq.pos + rq.sectors <= SECTOR_T_MAX
      modifies this`queue
      ensures Valid()
      ensures queue == old(queue) + [rq]
    {
      queue := queue + [rq];
    }

    /**
     * sstf_dispatch: on an empty list return 0 and change nothing; otherwise
     * unlink the nearest request, hand it to the dispatch list, move
     * `prev_sector` to its end and return 1.
     */
    method Dispatch(force: bool) returns (ret: int, dispatched: Option<Request>)
      requires Valid()
      modifies this
      ensures Valid()
      ensures old(queue) == [] ==>
        ret == 0 && dispatched == None && queue == old(queue) && prevSector == old(prevSector)
      ensures old(queue) != [] ==>
        ret == 1 && dispatched.Some?
        && exists k: nat ::
          && IsNearest(old(queue), old(prevSector), k)
          && dispatched.value == old(queue)[k]
          && queue == RemoveAt(old(queue), k)
          && prevSector == old(queue)[k].pos + old(queue)[k].sectors
    {
      if queue == [] {
        return 0, None;
      }
      var k := SelectNearest(queue, prevSector);
      var rq := queue[k];
      prevSector := rq.sectors + rq.pos;
      RemoveAtDistinct(queue, k);
      queue := RemoveAt(queue, k);
      ret, dispatched := 1, Some(rq);
    }

    /** sstf_merged_requests: `next` was merged into another request and leaves the list. */
    method MergedRequests(rq: Request, next: Request)
      requires Valid()
      requires next in queue
      modifies this`queue
      ensures Valid()
      ensures exists k :: 0 <= k < |old(queue)| && old(queue)[k] == next && queue == RemoveAt(old(queue), k)
      ensures !Linked(queue, next.tag)
    {
      var k :| 0 <= k < |queue| && queue[k] == next;
      RemoveAtDistinct(queue, k);
      queue := RemoveAt(queue, k);
    }

    /** sstf_former_request: the request queued just before `rq`, or none at the head. */
    method FormerRequest(rq: Request) returns (r: Option<Request>)
      requires Valid()
      requires rq in queue
      ensures forall k :: 0 <= k < |queue| && queue[k] == rq ==>
        r == if k == 0 then None else Some(queue[k - 1])
    {
      var k :| 0 <= k < |queue| && queue[k] == rq;
      if k == 0 {
        r := None;
      } else {
        r := Some(queue[k - 1]);
      }
    }

    /** sstf_latter_request: the request queued just after `rq`, or none at the tail. */
    method LatterRequest(rq: Request) returns (r: Option<Request>)
      requires Valid()
      requires rq in queue
      ensures forall k :: 0 <= k < |queue| && queue[k] == rq ==>
        r == if k == |queue| - 1 then None else Some(queue[k + 1])
    {
      var k :| 0 <= k < |queue| && queue[k] == rq;
      if k == |queue| - 1 {
        r := None;
      } else {
        r := Some(queue[k + 1]);
      }
    }

    /** sstf_exit_queue: BUG_ON(!list_empty(&nd->queue)), then kfree. */
    method ExitQueue() returns (outcome: ExitOutcome)
      requires Valid()
      ensures outcome == Bug <==> queue != []
    {
      if queue != [] {
        return Bug;
      }
      return Freed;
    }
  }
}

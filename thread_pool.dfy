/** The bounded request queue of threadpool/threadpool.h, sequentially: the
    std::list of request pointers, the semaphore counting posted requests,
    and the stop flag. One call of RunStep is one round of run()'s loop as a
    single worker sees it with the queue lock held; interleavings of several
    workers are sequences of such rounds. */
module ThreadPool {
  import opened Common

  /** A request pointer: the http_conn a client is served by. NULL is None. */
  type RequestId = nat
  type Request = Option<RequestId>

  /** What the locked part of a round of run() does with the queue. */
  datatype Taken =
    | Empty                       // woken, but the queue was empty: continue
    | Dropped                     // the front pointer was NULL: continue
    | Handled(request: RequestId) // request->process() is called

  /** The push_back of append, guarded by the m_max_requests bound: the
      request is refused when the queue already holds that many. */
  function Enqueue(q: seq<Request>, max: int, r: Request): (res: (seq<Request>, bool))
    ensures res.1 <==> |q| < max
    ensures res.1 ==> |res.0| == |q| + 1 && res.0[..|q|] == q && res.0[|q|] == r
    ensures !res.1 ==> res.0 == q
    ensures |q| <= max ==> |res.0| <= max
  {
    if |q| >= max then (q, false) else (q + [r], true)
  }

  /** front and pop_front: the first request leaves the queue, and is either
      dropped (NULL) or processed. */
  function Dequeue(q: seq<Request>): (res: (seq<Request>, Taken))
    ensures q == [] ==> res == ([], Empty)
    ensures q != [] ==> [q[0]] + res.0 == q
    ensures q != [] ==> (res.1.Dropped? <==> q[0].None?)
    ensures q != [] && q[0].Some? ==> res.1 == Handled(q[0].value)
  {
    if q == [] then ([], Empty)
    else (q[1..], if q[0].None? then Dropped else Handled(q[0].value))
  }

  /** One operation on the queue: an append of a request, or a worker's
      locked dequeue. */
  datatype Op = Push(r: Request) | Pop

  /** The state after running `ops` from queue `q` with bound `max`: the
      final queue, the requests append accepted, and the requests the
      dequeues removed (NULL ones included), each in order. */
  function Replay(q: seq<Request>, max: int, ops: seq<Op>): (res: (seq<Request>, seq<Request>, seq<Request>))
    decreases |ops|
  {
    if ops == [] then (q, [], [])
    else
      match ops[0]
      case Push(r) =>
        var (q1, ok) := Enqueue(q, max, r);
        var (qn, acc, tak) := Replay(q1, max, ops[1..]);
        (qn, (if ok then [r] else []) + acc, tak)
      case Pop =>
        var (q1, t) := Dequeue(q);
        var (qn, acc, tak) := Replay(q1, max, ops[1..]);
        (qn, acc, (if q == [] then [] else [q[0]]) + tak)
  }

  /** First in, first out: what was queued followed by what was accepted is
      exactly what was removed followed by what is still queued. Requests
      leave in the order they arrived and none is lost or duplicated. */
  lemma {:induction false} ReplayIsFifo(q: seq<Request>, max: int, ops: seq<Op>)
    ensures var (qn, acc, tak) := Replay(q, max, ops); q + acc == tak + qn
    decreases |ops|
  {
    if ops != [] {
      match ops[0]
      case Push(r) =>
        var (q1, ok) := Enqueue(q, max, r);
        ReplayIsFifo(q1, max, ops[1..]);
        var (qn, acc, tak) := Replay(q1, max, ops[1..]);
        if ok {
          assert q + ([r] + acc) == (q + [r]) + acc;
        }
      case Pop =>
        var (q1, t) := Dequeue(q);
        ReplayIsFifo(q1, max, ops[1..]);
        var (qn, acc, tak) := Replay(q1, max, ops[1..]);
        if q != [] {
          assert q + acc == [q[0]] + (q1 + acc);
        }
    }
  }

  /** Whatever the operations, a queue within the bound stays within it. */
  lemma {:induction false} ReplayBounded(q: seq<Request>, max: int, ops: seq<Op>)
    requires |q| <= max
    ensures |Replay(q, max, ops).0| <= max
    decreases |ops|
  {
    if ops != [] {
      match ops[0]
      case Push(r) =>
        ReplayBounded(Enqueue(q, max, r).0, max, ops[1..]);
      case Pop =>
        ReplayBounded(Dequeue(q).0, max, ops[1..]);
    }
  }

  /** The outcome of one round of run()'s loop. */
  datatype Step =
    | Stopped           // m_stop is set: the loop ends
    | Blocked           // sem.wait() blocks: no request has been posted
    | Woke(taken: Taken)

  class Pool {
    const threadNumber: int
    const maxRequests: int
    /** m_workqueue, front first. */
    var queue: seq<Request>
    /** The count of m_queuestat. */
    var posts: nat
    var stop: bool
    /** The requests whose process() the workers have called, in call order. */
    var processed: seq<RequestId>

    ghost predicate Valid()
      reads this
    {
      0 < threadNumber && 0 < maxRequests && |queue| <= maxRequests
    }

    /** The constructor's state once its argument checks passed and every
        worker thread was created and detached. */
    constructor (threadNumber: int, maxRequests: int)
      requires 0 < threadNumber && 0 < maxRequests
      ensures Valid()
      ensures this.threadNumber == threadNumber && this.maxRequests == maxRequests
      ensures queue == [] && posts == 0 && !stop && processed == []
    {
      this.threadNumber := threadNumber;
      this.maxRequests := maxRequests;
      queue, posts, stop, processed := [], 0, false, [];
    }

    /** threadpool(connPool, thread_number, max_requests): it throws when
        either count is not positive, and when pthread_create or
        pthread_detach fails for some thread (`spawned` is false). */
    static method Create(threadNumber: int, maxRequests: int, spawned: bool) returns (p: Option<Pool>)
      ensures p.None? <==> threadNumber <= 0 || maxRequests <= 0 || !spawned
      ensures p.Some? ==> fresh(p.value) && p.value.Valid() && p.value.queue == [] && p.value.posts == 0
      ensures p.Some? ==> p.value.threadNumber == threadNumber && p.value.maxRequests == maxRequests
      ensures p.Some? ==> !p.value.stop && p.value.processed == []
    {
      if threadNumber <= 0 || maxRequests <= 0 {
        return None;
      }
      if !spawned {
        return None;
      }
      var pool := new Pool(threadNumber, maxRequests);
      p := Some(pool);
    }

    /** append(request): refused, with nothing changed, when the queue holds
        m_max_requests requests; otherwise pushed at the back and posted. */
    method Append(request: Request) returns (ok: bool)
      requires Valid()
      modifies this
      ensures Valid()
      ensures (queue, ok) == Enqueue(old(queue), maxRequests, request)
      ensures posts == old(posts) + (if ok then 1 else 0)
      ensures stop == old(stop) && processed == old(processed)
    {
      if |queue| >= maxRequests {
        return false;
      }
      queue := queue + [request];
      posts := posts + 1;
      ok := true;
    }

    /** One round of run()'s loop. sem.wait() takes a post when there is
        one; with the count at zero it blocks, unless the wait is
        interrupted by a signal, whose failure run() ignores. Under the lock
        an empty queue is left alone; otherwise the front is popped, and
        processed unless it is NULL. */
    method RunStep(interrupted: bool) returns (s: Step)
      requires Valid()
      modifies this
      ensures Valid()
      ensures old(stop) ==> s == Stopped && queue == old(queue) && posts == old(posts)
      ensures !old(stop) && old(posts) == 0 && !interrupted ==> s == Blocked && queue == old(queue) && posts == 0
      ensures !old(stop) && (old(posts) > 0 || interrupted) ==>
                s == Woke(Dequeue(old(queue)).1) && queue == Dequeue(old(queue)).0 &&
                posts == (if old(posts) > 0 then old(posts) - 1 else 0)
      ensures processed == old(processed) + (if s.Woke? && s.taken.Handled? then [s.taken.request] else [])
      ensures stop == old(stop)
    {
      if stop {
        return Stopped;
      }
      if posts > 0 {
        posts := posts - 1;
      } else if !interrupted {
        return Blocked;
      }
      var t := Dequeue(queue).1;
      queue := Dequeue(queue).0;
      if t.Handled? {
        processed := processed + [t.request];
      }
      s := Woke(t);
    }

    /** ~threadpool sets m_stop, which ends every worker's loop. */
    method Shutdown()
      requires Valid()
      modifies this
      ensures Valid() && stop
      ensures queue == old(queue) && posts == old(posts) && processed == old(processed)
    {
      stop := true;
    }
  }
}

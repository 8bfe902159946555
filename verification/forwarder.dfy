/**
  The capture service's buffered forwarder (class `Poster`): classified frames
  are buffered and posted to the parser when the batch is full or the flush
  interval has elapsed. Delivery is best effort: the buffer is cleared whatever
  the POST does.
 */
module Forwarder {
  import opened Wrappers
  import opened Json
  import opened Http

  /** The forwarder's state; times are whole clock ticks. */
  datatype Poster = Poster(batchSize: int, flushInterval: int, buffer: seq<Record>, lastFlush: int)

  /** A single dictionary when the batch size is one, otherwise the whole buffer as a list. */
  datatype Payload = Single(item: Record) | Batch(items: seq<Record>)

  /** The line a flush logs: a warning status, a success count, or a raised POST. */
  datatype Log = Warned(status: int) | Sent(count: nat) | PostFailed

  datatype Post = Post(payload: Payload, log: Log)

  /** The state after a call, and the POST it made, if any. */
  datatype Step = Step(poster: Poster, post: Option<Post>)

  /** One captured item handed to `add_and_maybe_flush`, with what the environment does during the call. */
  datatype Arrival = Arrival(meta: Record, now: int, outcome: PostOutcome, flushedAt: int)

  /** The items a payload carries, in order. */
  function Items(p: Payload): seq<Record>
  {
    match p
    case Single(item) => [item]
    case Batch(items) => items
  }

  /** All items handed to the POSTs, in order. */
  function Flattened(posts: seq<Post>): seq<Record>
  {
    if |posts| == 0 then [] else Flattened(posts[..|posts| - 1]) + Items(posts[|posts| - 1].payload)
  }

  function Metas(arrivals: seq<Arrival>): seq<Record>
  {
    seq(|arrivals|, i requires 0 <= i < |arrivals| => arrivals[i].meta)
  }

  lemma FlattenedSnoc(posts: seq<Post>, post: Post)
    ensures Flattened(posts + [post]) == Flattened(posts) + Items(post.payload)
  {
    assert (posts + [post])[..|posts|] == posts;
  }

  lemma MetasSnoc(arrivals: seq<Arrival>, i: nat)
    requires i < |arrivals|
    ensures Metas(arrivals[..i + 1]) == Metas(arrivals[..i]) + [arrivals[i].meta]
  {
  }

  /**
    One call of `add_and_maybe_flush` inside the capture loop: the arrival's item,
    and any buffered ones, move into a POST or stay buffered, in order.
   */
  method Offer(q: Poster, a: Arrival, posts: seq<Post>) returns (q': Poster, posts': seq<Post>)
    requires q.batchSize == 1 ==> q.buffer == []
    ensures Flattened(posts') + q'.buffer == Flattened(posts) + q.buffer + [a.meta]
    ensures q'.batchSize == q.batchSize && q'.flushInterval == q.flushInterval
    ensures 1 <= q.batchSize && |q.buffer| < q.batchSize ==> |q'.buffer| < q.batchSize
  {
    var s := AddAndMaybeFlush(q, a);
    q' := s.poster;
    if s.post.Some? {
      FlattenedSnoc(posts, s.post.value);
      posts' := posts + [s.post.value];
    } else {
      posts' := posts;
    }
  }

  /** The constructor: an empty buffer, flushed as of `now`. */
  function NewPoster(batchSize: int, flushInterval: int, now: int): (p: Poster)
    ensures p.buffer == [] && p.lastFlush == now
    ensures p.batchSize == batchSize && p.flushInterval == flushInterval
  {
    Poster(batchSize, flushInterval, [], now)
  }

  /** `flush`: one POST of the buffer, then the buffer is cleared and the flush time reset. */
  function Flush(p: Poster, outcome: PostOutcome, now: int): (s: Step)
    // an empty buffer: nothing posted, nothing changed, not even the flush time
    ensures p.buffer == [] ==> s == Step(p, None)
    // a non-empty buffer: posted once, then cleared, whatever the outcome
    ensures p.buffer != [] ==>
      && s.post.Some?
      && s.poster == p.(buffer := [], lastFlush := now)
    ensures p.buffer != [] && p.batchSize == 1 ==> s.post.value.payload == Single(p.buffer[0])
    ensures p.buffer != [] && p.batchSize != 1 ==> s.post.value.payload == Batch(p.buffer)
    ensures p.buffer != [] && outcome.Raised? ==> s.post.value.log == PostFailed
    ensures p.buffer != [] && outcome.Responded? && outcome.status >= 300 ==>
      s.post.value.log == Warned(outcome.status)
    ensures p.buffer != [] && outcome.Responded? && outcome.status < 300 ==>
      s.post.value.log == Sent(|p.buffer|)
  {
    if p.buffer == [] then Step(p, None)
    else
      var payload := if p.batchSize != 1 then Batch(p.buffer) else Single(p.buffer[0]);
      var log :=
        match outcome
        case Raised => PostFailed
        case Responded(status) => if status >= 300 then Warned(status) else Sent(|p.buffer|);
      Step(p.(buffer := [], lastFlush := now), Some(Post(payload, log)))
  }

  /** `add_and_maybe_flush`: append, then flush on a full batch or an elapsed interval. */
  function AddAndMaybeFlush(p: Poster, a: Arrival): (s: Step)
    ensures s.poster.batchSize == p.batchSize && s.poster.flushInterval == p.flushInterval
    ensures s.post.Some? <==>
      (|p.buffer| + 1 >= p.batchSize || a.now - p.lastFlush >= p.flushInterval)
    // no flush: the item waits in the buffer, behind the earlier ones
    ensures s.post.None? ==> s.poster == p.(buffer := p.buffer + [a.meta])
    // a flush: the buffer is emptied and the flush time comes from the second clock reading
    ensures s.post.Some? ==> s.poster.buffer == [] && s.poster.lastFlush == a.flushedAt
    // nothing lost and nothing duplicated, once a one-item batch starts from an empty buffer
    ensures s.post.Some? && (p.batchSize != 1 || p.buffer == []) ==>
      Items(s.post.value.payload) == p.buffer + [a.meta]
    // the buffer stays shorter than a positive batch size
    ensures 1 <= p.batchSize && |p.buffer| < p.batchSize ==> |s.poster.buffer| < p.batchSize
  {
    var q := p.(buffer := p.buffer + [a.meta]);
    if |q.buffer| >= q.batchSize || a.now - q.lastFlush >= q.flushInterval then
      Flush(q, a.outcome, a.flushedAt)
    else
      Step(q, None)
  }

  /** The state a flush leaves behind does not depend on how the POST went. */
  lemma FlushIgnoresOutcome(p: Poster, o1: PostOutcome, o2: PostOutcome, now: int)
    ensures Flush(p, o1, now).poster == Flush(p, o2, now).poster
    ensures Flush(p, o1, now).post.Some? == Flush(p, o2, now).post.Some?
    ensures Flush(p, o1, now).post.Some? ==>
      Flush(p, o1, now).post.value.payload == Flush(p, o2, now).post.value.payload
  {
  }

  /**
    The capture loop's use of the forwarder: each arrival is added in turn.
    Every item is handed to exactly one POST or is still buffered, in arrival order.
   */
  method Run(p: Poster, arrivals: seq<Arrival>) returns (q: Poster, posts: seq<Post>)
    requires p.batchSize == 1 ==> p.buffer == []
    ensures Flattened(posts) + q.buffer == p.buffer + Metas(arrivals)
    ensures q.batchSize == p.batchSize && q.flushInterval == p.flushInterval
    ensures 1 <= p.batchSize && |p.buffer| < p.batchSize ==> |q.buffer| < p.batchSize
  {
    q := p;
    posts := [];
    var i := 0;
    while i < |arrivals|
      invariant 0 <= i <= |arrivals|
      invariant q.batchSize == p.batchSize && q.flushInterval == p.flushInterval
      invariant 1 <= p.batchSize && |p.buffer| < p.batchSize ==> |q.buffer| < p.batchSize
      invariant Flattened(posts) + q.buffer == p.buffer + Metas(arrivals[..i])
    {
      MetasSnoc(arrivals, i);
      q, posts := Offer(q, arrivals[i], posts);
      i := i + 1;
    }
    assert arrivals[..i] == arrivals;
  }
}

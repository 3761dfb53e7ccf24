/** The audio ring between the emulator and the audio callback, and the streaming resampler. */
module Sound {
  import opened Basics

  datatype Frame = Frame(left: int, right: int)

  const SAMPLES: nat := 512
  const BATCH_SIZE: nat := 100
  const MAX_TRIES: nat := 10
  const SILENCE: Frame := Frame(0, 0)

  // ---------- the ring as a queue ----------

  /** The frames from index `o` up to index `i`, around the end of the buffer. */
  function Held(buf: seq<Frame>, o: nat, i: nat): seq<Frame>
    requires o < |buf| && i < |buf|
  {
    if o <= i then buf[o..i] else buf[o..] + buf[..i]
  }

  function Next(i: nat, count: nat): nat { if i + 1 >= count then 0 else i + 1 }

  function Previous(i: nat, count: nat): nat
    requires count > 0
  {
    if i == 0 then count - 1 else i - 1
  }

  lemma HeldPush(buf: seq<Frame>, o: nat, i: nat, f: Frame)
    requires o < |buf| && i < |buf| && i != Previous(o, |buf|)
    ensures Held(buf[i := f], o, Next(i, |buf|)) == Held(buf, o, i) + [f]
  {
  }

  lemma HeldPop(buf: seq<Frame>, o: nat, i: nat)
    requires o < |buf| && i < |buf| && o != i
    ensures Held(buf, o, i) == [buf[o]] + Held(buf, Next(o, |buf|), i)
  {
  }

  lemma HandOver(delivered: seq<Frame>, queue: seq<Frame>, f: Frame, rest: seq<Frame>)
    requires queue == [f] + rest
    ensures queue[1..] == rest && delivered + queue == delivered + [f] + rest
  {
  }

  /** `k` more frames taken from a queue that has lost `n`. */
  lemma TakenMore(q: seq<Frame>, n: nat, k: nat, given: seq<Frame>)
    requires n + k <= |q|
    ensures q[n..][..k] == q[n..n + k] && q[n..][k..] == q[n + k..]
    ensures given + q[..n] + q[n..][..k] == given + q[..n + k]
  {
    assert q[..n] + q[n..][..k] == q[..n + k];
  }

  lemma HeldRoom(buf: seq<Frame>, o: nat, i: nat)
    requires o < |buf| && i < |buf|
    ensures |Held(buf, o, i)| <= |buf| - 1
    ensures |Held(buf, o, i)| == |buf| - 1 <==> i == Previous(o, |buf|)
    ensures |Held(buf, o, i)| == 0 <==> i == o
  {
  }

  // ---------- what the callback writes ----------

  /** Sample `j` of a list of frames, left and right alternating. */
  function Sample(fs: seq<Frame>, j: nat): int
    requires j < 2 * |fs|
  {
    if j % 2 == 0 then fs[j / 2].left else fs[j / 2].right
  }

  predicate Written(out: seq<int>, fs: seq<Frame>) {
    2 * |fs| <= |out| && forall j :: 0 <= j < 2 * |fs| ==> out[j] == Sample(fs, j)
  }

  /** Every frame takes two places, the left sample first. */
  lemma WrittenFrames(out: seq<int>, fs: seq<Frame>, k: nat)
    requires Written(out, fs) && k < |fs|
    ensures out[2 * k] == fs[k].left && out[2 * k + 1] == fs[k].right
  {
  }

  /** What the callback leaves in its request of `len` frames when `fs` were available: the frames,
      and then nothing but zeros when the gap is one whole period, or else the samples backwards. */
  predicate Filled(out: seq<int>, fs: seq<Frame>, len: nat) {
    && |fs| <= len && 2 * len <= |out| && Written(out, fs)
    && (forall j :: 2 * |fs| <= j < 2 * len ==>
          out[j] == if len - |fs| == SAMPLES then 0 else Mirror(fs, j - 2 * |fs|))
  }

  function Mirror(fs: seq<Frame>, j: nat): int {
    if j + 2 <= 2 * |fs| then Sample(fs, 2 * |fs| - 2 - j) else 0
  }

  /** A gap other than a whole period mirrors what was played around its last sample, and is silent beyond. */
  lemma GapMirrors(out: seq<int>, fs: seq<Frame>, len: nat, d: nat)
    requires Filled(out, fs, len) && fs != [] && len - |fs| != SAMPLES && 0 < d && 2 * |fs| - 1 + d < 2 * len
    ensures var last := 2 * |fs| - 1; out[last + d] == if d <= last then out[last - d] else 0
  {
    var last := 2 * |fs| - 1;
    assert out[last + d] == Mirror(fs, d - 1);
    if d <= last { assert out[last - d] == Sample(fs, last - d); }
  }

  // ---------- the resampler's law ----------

  /** The k-th frame that came out is input frame floor(k * rin / rout). */
  predicate Nearest(input: seq<Frame>, pushed: seq<Frame>, rin: nat, rout: nat)
    requires rout > 0
  {
    forall k :: 0 <= k < |pushed| ==> Picked(input, pushed[k], k, rin, rout)
  }

  predicate Picked(input: seq<Frame>, f: Frame, k: nat, rin: nat, rout: nat)
    requires rout > 0
  {
    Source(k, rin, rout) < |input| && f == input[Source(k, rin, rout)]
  }

  function Source(k: nat, rin: nat, rout: nat): (j: nat)
    requires rout > 0
  {
    SourceNat(k * rin, rout);
    k * rin / rout
  }

  /** How many frames were heard says which ones. */
  lemma NearestUnique(input: seq<Frame>, a: seq<Frame>, b: seq<Frame>, rin: nat, rout: nat)
    requires rout > 0 && Nearest(input, a, rin, rout) && Nearest(input, b, rin, rout) && |a| == |b|
    ensures a == b
  {
    forall k | 0 <= k < |a| ensures a[k] == b[k] {
      assert Picked(input, a[k], k, rin, rout) && Picked(input, b[k], k, rin, rout);
    }
  }

  lemma SourceNat(a: nat, b: nat)
    requires b > 0
    ensures 0 <= a / b
  {
  }

  lemma SourceIs(k: nat, rin: nat, rout: nat, taken: nat, diff: nat)
    requires rout > 0 && k * rin == taken * rout + diff && diff < rout
    ensures Source(k, rin, rout) == taken
  {
    DivUnique(k * rin, rout, taken, diff);
  }

  lemma DivUnique(a: nat, b: nat, q: nat, r: nat)
    requires b > 0 && a == q * b + r && r < b
    ensures a / b == q
  {
    var p := a / b;
    assert a == p * b + a % b;
    if p < q { MulMono(p + 1, q, b); } else if p > q { MulMono(q + 1, p, b); }
  }

  function Max(a: int, b: int): int { if a > b then a else b }

  /** What has been pushed and taken never drifts apart by as much as one frame of the faster rate. */
  predicate Law(input: seq<Frame>, pushed: seq<Frame>, taken: nat, diff: int, rin: nat, rout: nat) {
    && rin > 0 && rout > 0 && taken <= |input|
    && |pushed| * rin - taken * rout == diff
    && 0 <= diff < Max(rin, rout)
    && Nearest(input, pushed, rin, rout)
  }

  lemma LawPush(input: seq<Frame>, pushed: seq<Frame>, taken: nat, diff: int, rin: nat, rout: nat)
    requires Law(input, pushed, taken, diff, rin, rout) && taken < |input| && diff < rout
    ensures Nearest(input, pushed + [input[taken]], rin, rout)
    ensures |pushed + [input[taken]]| * rin - taken * rout == diff + rin
  {
    SourceIs(|pushed|, rin, rout, taken, diff);
  }

  /** One round of the accumulator keeps the law, whichever of its two steps it takes. */
  lemma LawNear(input: seq<Frame>, pushed: seq<Frame>, taken: nat, diff: int, rin: nat, rout: nat,
                pushed': seq<Frame>, taken': nat, diff': int)
    requires Law(input, pushed, taken, diff, rin, rout) && taken < |input|
    requires pushed' == if diff < rout then pushed + [input[taken]] else pushed
    requires var d := if diff < rout then diff + rin else diff;
             if d >= rout then taken' == taken + 1 && diff' == d - rout else taken' == taken && diff' == d
    ensures Law(input, pushed', taken', diff', rin, rout)
  {
    if diff < rout { LawPush(input, pushed, taken, diff, rin, rout); }
    assert (taken + 1) * rout == taken * rout + rout;
  }

  lemma LawStart(rin: nat, rout: nat)
    requires rin > 0 && rout > 0
    ensures Law([], [], 0, 0, rin, rout)
  {
  }

  lemma LawMoreInput(input: seq<Frame>, more: seq<Frame>, pushed: seq<Frame>, taken: nat, diff: int, rin: nat, rout: nat)
    requires Law(input, pushed, taken, diff, rin, rout)
    ensures Law(input + more, pushed, taken, diff, rin, rout)
  {
  }

  // ---------- how much is played, and when ----------

  /** The size of the ring and the two rates. */
  datatype Gear = Gear(count: nat, rin: nat, rout: nat)

  /** How many frames are held and have been heard, and the accumulator. Which frames they are follows from
      the law of the resampler. */
  datatype Level = Level(held: nat, heard: nat, diff: int)

  predicate Full(g: Gear, l: Level) { l.held + 1 >= g.count }

  function Least(a: nat, b: nat): nat { if a < b then a else b }

  /** A request takes what there is of it. */
  function Serve(l: Level, len: nat): Level {
    l.(held := l.held - Least(l.held, len), heard := l.heard + Least(l.held, len))
  }

  function ServeAll(l: Level, requests: seq<nat>, n: nat): Level
    requires n <= |requests|
  {
    if n == 0 then l else Serve(ServeAll(l, requests, n - 1), requests[n - 1])
  }

  function Sum(requests: seq<nat>, n: nat): nat
    requires n <= |requests|
  {
    if n == 0 then 0 else Sum(requests, n - 1) + requests[n - 1]
  }

  /** Together requests take what all of them ask for, as far as it is there. */
  lemma {:induction false} ServedSum(l: Level, requests: seq<nat>, n: nat)
    requires n <= |requests|
    ensures var r, t := ServeAll(l, requests, n), Sum(requests, n);
      && r.held == (if t < l.held then l.held - t else 0) && r.diff == l.diff
      && r.heard + r.held == l.heard + l.held
  {
    if n > 0 { ServedSum(l, requests, n - 1); }
  }

  /** A frame is offered to the resampler: pushed, used up, or both. */
  function Pushes(g: Gear, l: Level): nat { if l.diff < g.rout then 1 else 0 }

  function Raised(g: Gear, l: Level): int { if l.diff < g.rout then l.diff + g.rin else l.diff }

  function Uses(g: Gear, l: Level): nat { if Raised(g, l) >= g.rout then 1 else 0 }

  function Offer(g: Gear, l: Level): Level {
    Level(l.held + Pushes(g, l), l.heard, if Uses(g, l) == 1 then Raised(g, l) - g.rout else Raised(g, l))
  }

  datatype Fed = Fed(level: Level, left: nat)

  /** Up to `amount` frames, until the ring is full. */
  function Feed(g: Gear, l: Level, amount: nat): (r: Fed)
    ensures r.left <= amount && l.held <= r.level.held
    ensures amount > 0 && !Full(g, l) ==> r.level.held - r.left > l.held - amount
    ensures l.held < g.count ==> r.level.held < g.count
    decreases amount + if Full(g, l) then 0 else g.count - l.held
  {
    if amount == 0 || Full(g, l) then Fed(l, amount) else Feed(g, Offer(g, l), amount - Uses(g, l))
  }

  lemma FeedStep(g: Gear, l: Level, amount: nat)
    requires amount > 0 && !Full(g, l)
    ensures Feed(g, l, amount) == Feed(g, Offer(g, l), amount - Uses(g, l))
  {
  }

  datatype Waited = Waited(level: Level, used: nat, stalled: bool)

  /** Up to ten releases of the lock while the ring is full. */
  function Wait(g: Gear, l: Level, schedule: seq<seq<nat>>, used: nat, tries: nat): (r: Waited)
    requires used <= |schedule|
    ensures used <= r.used <= |schedule| && (r.used == used ==> r.level == l)
    ensures r.used == used && !r.stalled && tries < MAX_TRIES ==> !Full(g, l)
    ensures l.held < g.count ==> r.level.held < g.count
    decreases |schedule| - used
  {
    if tries >= MAX_TRIES || !Full(g, l) then Waited(l, used, false)
    else if used == |schedule| then Waited(l, used, true)
    else
      ServedLess(l, schedule[used], |schedule[used]|);
      Wait(g, ServeAll(l, schedule[used], |schedule[used]|), schedule, used + 1, tries + 1)
  }

  lemma {:induction false} ServedLess(l: Level, requests: seq<nat>, n: nat)
    requires n <= |requests|
    ensures ServeAll(l, requests, n).held <= l.held
  {
    if n > 0 { ServedLess(l, requests, n - 1); }
  }

  datatype Batched = Batched(level: Level, todo: nat, used: nat, finished: bool)

  /** One round of a batch with `todo` frames left; it finishes unless it stalls. */
  function RoundLevel(g: Gear, l: Level, todo: nat, schedule: seq<seq<nat>>, used: nat): (r: Batched)
    requires used <= |schedule|
    ensures used <= r.used <= |schedule| && r.todo <= todo && (l.held < g.count ==> r.level.held < g.count)
    ensures todo > 0 && r.finished && r.used == used ==> r.level.held - r.todo > l.held - todo
  {
    var w := Wait(g, l, schedule, used, 0);
    if w.stalled then Batched(w.level, todo, w.used, false)
    else
      var fed := Feed(g, w.level, Least(todo, BATCH_SIZE));
      Batched(fed.level, todo - Least(todo, BATCH_SIZE) + fed.left, w.used, true)
  }

  /** A batch of `todo` frames under a schedule of callbacks. */
  function BatchLevel(g: Gear, l: Level, todo: nat, schedule: seq<seq<nat>>, used: nat): (r: Batched)
    requires used <= |schedule| && l.held < g.count
    ensures r.used <= |schedule| && r.level.held < g.count
    decreases |schedule| - used, todo + g.count - l.held
  {
    if todo == 0 then Batched(l, 0, used, true)
    else
      var r := RoundLevel(g, l, todo, schedule, used);
      if !r.finished then r else BatchLevel(g, r.level, r.todo, schedule, r.used)
  }

  datatype Event = Batch(frames: seq<Frame>, schedule: seq<seq<nat>>) | Callbacks(requests: seq<nat>)

  /** What one event does, and the requests it serves. */
  function EventLevel(g: Gear, l: Level, e: Event): (r: Level)
    requires l.held < g.count
    ensures r.held < g.count
  {
    match e
    case Batch(frames, schedule) => BatchLevel(g, l, |frames|, schedule, 0).level
    case Callbacks(requests) => ServedLess(l, requests, |requests|); ServeAll(l, requests, |requests|)
  }

  function EventAsks(g: Gear, l: Level, e: Event): seq<nat>
    requires l.held < g.count
  {
    match e
    case Batch(frames, schedule) => Flat(schedule, BatchLevel(g, l, |frames|, schedule, 0).used)
    case Callbacks(requests) => requests
  }

  predicate EventEnds(g: Gear, l: Level, e: Event)
    requires l.held < g.count
  {
    e.Callbacks? || BatchLevel(g, l, |e.frames|, e.schedule, 0).finished
  }

  datatype Played = Played(level: Level, done: nat, frames: seq<Frame>, asks: seq<nat>)

  /** The events one after the other, up to one that does not end: the level, how many ended, the frames
      they batched and the requests they served. */
  function PlayAll(g: Gear, l: Level, events: seq<Event>): (r: Played)
    requires l.held < g.count
    ensures r.done <= |events|
    decreases |events|
  {
    if events == [] then Played(l, 0, [], [])
    else if !EventEnds(g, l, events[0]) then
      Played(EventLevel(g, l, events[0]), 0, FramesOf(events[0]), EventAsks(g, l, events[0]))
    else
      var r := PlayAll(g, EventLevel(g, l, events[0]), events[1..]);
      Played(r.level, 1 + r.done, FramesOf(events[0]) + r.frames, EventAsks(g, l, events[0]) + r.asks)
  }

  function FramesOf(event: Event): seq<Frame> { if event.Batch? then event.frames else [] }

  /** The frames of the batches among the first `n` events. */
  function Input(events: seq<Event>, n: nat): seq<Frame>
    requires n <= |events|
    decreases n
  {
    if n == 0 then []
    else match events[0]
      case Batch(frames, _) => frames + Input(events[1..], n - 1)
      case Callbacks(_) => Input(events[1..], n - 1)
  }

  /** What has been batched is all the batches up to the one at which the session stops. */
  lemma {:induction false} PlayedInput(g: Gear, l: Level, events: seq<Event>)
    requires l.held < g.count
    ensures var r := PlayAll(g, l, events); r.frames == Input(events, if r.done < |events| then r.done + 1 else r.done)
    decreases |events|
  {
    if events != [] {
      assert Input(events[1..], 0) == [];
      assert FramesOf(events[0]) == if events[0].Batch? then events[0].frames else [];
      if EventEnds(g, l, events[0]) { PlayedInput(g, EventLevel(g, l, events[0]), events[1..]); }
    }
  }

  lemma Joined<T>(a: seq<T>, b: seq<T>, c: seq<T>)
    ensures a + b + c == a + (b + c)
  {
  }

  lemma PrefixThrough(a: seq<Frame>, b: seq<Frame>, c: seq<Frame>)
    requires a <= b && b <= c
    ensures a <= c
  {
  }

  /** The requests of the first `n` releases. */
  function Flat(schedule: seq<seq<nat>>, n: nat): seq<nat>
    requires n <= |schedule|
  {
    if n == 0 then [] else Flat(schedule, n - 1) + schedule[n - 1]
  }

  class Context {
    var buffer: array<Frame>
    var frameCount: nat
    var frameIn: nat
    var frameOut: nat
    var frameFilled: nat
    var diff: int
    const rateIn: nat
    const rateOut: nat

    ghost var queue: seq<Frame>       // what is in the ring
    ghost var pushed: seq<Frame>      // everything that ever went in
    ghost var delivered: seq<Frame>   // everything the callback has taken out
    ghost var input: seq<Frame>       // everything handed to SND_batchSamples
    ghost var taken: nat              // how much of it has been used up
    ghost var asked: seq<nat>         // every request the callback has served

    ghost predicate Valid()
      reads this, buffer
    {
      && rateIn > 0 && rateOut > 0
      && (frameCount > 0 ==>
            && buffer.Length == frameCount && frameIn < frameCount && frameOut < frameCount
            && frameFilled == Previous(frameOut, frameCount)
            && queue == Held(buffer[..], frameOut, frameIn))
      && pushed == delivered + queue
    }

    ghost predicate Lawful()
      reads this
    {
      Law(input, pushed, taken, diff, rateIn, rateOut)
    }

    ghost function Now(): Level
      reads this
    {
      Level(|queue|, |delivered|, diff)
    }

    ghost function Works(): Gear
      reads this
    {
      Gear(frameCount, rateIn, rateOut)
    }

    ghost function Free(): int
      reads this
    {
      frameCount - 1 - |queue|
    }

    /** The ring holds at most one frame less than its size, and is full exactly when the producer's
        index has caught up with the last frame given out. */
    lemma Room()
      requires Valid() && frameCount > 0
      ensures 0 <= Free() && (Full(Works(), Now()) <==> frameIn == frameFilled) && (Free() == 0 <==> frameIn == frameFilled)
      ensures |queue| == 0 <==> frameIn == frameOut
    {
      HeldRoom(buffer[..], frameOut, frameIn);
    }

    /** What the listener hears obeys the same law: frame k delivered is input frame floor(k * in / out). */
    lemma DeliveredNearest()
      requires Valid() && Lawful()
      ensures Nearest(input, delivered, rateIn, rateOut)
    {
      forall k | 0 <= k < |delivered| ensures Picked(input, delivered[k], k, rateIn, rateOut) {
        assert pushed[k] == delivered[k];
      }
    }

    constructor (rateIn: nat, rateOut: nat)
      requires rateIn > 0 && rateOut > 0
      ensures Valid() && Lawful() && frameCount == 0 && queue == [] && fresh(buffer)
      ensures diff == 0 && input == [] && taken == 0 && this.rateIn == rateIn && this.rateOut == rateOut
    {
      this.rateIn, this.rateOut := rateIn, rateOut;
      buffer := new Frame[0];
      frameCount, frameIn, frameOut, frameFilled, diff := 0, 0, 0, 0, 0;
      queue, pushed, delivered, input, taken, asked := [], [], [], [], 0, [];
    }

    /** A new, empty ring; a failed realloc keeps the old one, and size 0 switches the sound off. */
    method ResizeBuffer(count: nat, granted: bool)
      requires Valid()
      modifies this
      ensures Valid()
      ensures frameCount == (if count == 0 || granted then count else old(frameCount))
      ensures count > 0 && granted ==> fresh(buffer) && queue == [] && pushed == delivered == [] && input == [] && taken == 0
      ensures count > 0 && granted && old(diff) == 0 ==> Lawful()
      ensures count == 0 || !granted ==>
        && buffer == old(buffer) && queue == old(queue) && pushed == old(pushed) && delivered == old(delivered)
        && input == old(input) && taken == old(taken)
      ensures count > 0 && granted ==> Now() == Level(0, 0, old(diff)) && asked == []
      ensures diff == old(diff)
    {
      if count == 0 {
        frameCount := 0;
        return;
      }
      if !granted { return; }
      Renew(count);
      if diff == 0 { LawStart(rateIn, rateOut); }
    }

    method Renew(count: nat)
      requires rateIn > 0 && rateOut > 0 && count > 0
      modifies this
      ensures Valid() && frameCount == count && fresh(buffer) && diff == old(diff)
      ensures queue == [] && pushed == [] && delivered == [] && input == [] && taken == 0 && asked == []
    {
      buffer := new Frame[count](_ => SILENCE);
      frameCount, frameIn, frameOut, frameFilled := count, 0, 0, count - 1;
      queue, pushed, delivered, input, taken, asked := [], [], [], [], 0, [];
    }

    /** Takes the oldest frame out of the ring. */
    method TakeFrame() returns (f: Frame)
      requires Valid() && frameCount > 0 && frameIn != frameOut
      modifies this`frameOut, this`frameFilled, this`queue, this`delivered
      ensures Valid() && |old(queue)| > 0 && f == old(queue)[0]
      ensures queue == old(queue)[1..] && delivered == old(delivered) + [f]
    {
      HeldPop(buffer[..], frameOut, frameIn);
      f := buffer[frameOut];
      HandOver(delivered, queue, f, Held(buffer[..], Next(frameOut, frameCount), frameIn));
      frameFilled := frameOut;
      frameOut := frameOut + 1;
      if frameOut >= frameCount { frameOut := 0; }
      queue, delivered := queue[1..], delivered + [f];
    }

    /** Hands out the oldest frames, then fills the rest of the request. */
    method AudioCallback(out: array<int>, len: nat) returns (ghost popped: nat)
      requires Valid() && 2 * len <= out.Length
      modifies this`frameOut, this`frameFilled, this`queue, this`delivered, this`asked, out
      ensures Valid() && popped <= len && asked == old(asked) + [len]
      ensures frameCount == 0 ==> popped == 0 && out[..] == old(out[..])
      ensures frameCount > 0 ==> popped == if |old(queue)| < len then |old(queue)| else len
      ensures popped <= |old(queue)| && queue == old(queue)[popped..]
      ensures delivered == old(delivered) + old(queue)[..popped]
      ensures frameCount > 0 ==> Filled(out[..], old(queue)[..popped], len)
    {
      asked := asked + [len];
      popped := 0;
      if frameCount == 0 { return; }
      popped := Deliver(out, len);
    }

    method Deliver(out: array<int>, len: nat) returns (popped: nat)
      requires Valid() && frameCount > 0 && 2 * len <= out.Length
      modifies this`frameOut, this`frameFilled, this`queue, this`delivered, out
      ensures Valid() && popped == if |old(queue)| < len then |old(queue)| else len
      ensures queue == old(queue)[popped..] && delivered == old(delivered) + old(queue)[..popped]
      ensures Filled(out[..], old(queue)[..popped], len)
    {
      popped := 0;
      var left, at := len, 0;
      while frameOut != frameIn && left > 0
        invariant Valid() && popped <= |old(queue)| && popped + left == len && at == 2 * popped
        invariant queue == old(queue)[popped..] && delivered == old(delivered) + old(queue)[..popped]
        invariant Written(out[..], old(queue)[..popped])
        decreases left
      {
        Room();
        TakenMore(old(queue), popped, 1, old(delivered));
        var f := TakeFrame();
        assert [f] == old(queue)[popped..][..1] && old(queue)[..popped] + [f] == old(queue)[..popped + 1];
        PutFrame(out, at, f, old(queue)[..popped]);
        at, left, popped := at + 2, left - 1, popped + 1;
      }
      Room();
      Fill(out, old(queue)[..popped], len, left, at);
    }

    static method PutFrame(out: array<int>, at: nat, f: Frame, ghost fs: seq<Frame>)
      requires at == 2 * |fs| && at + 2 <= out.Length && Written(out[..], fs)
      modifies out
      ensures Written(out[..], fs + [f])
    {
      out[at] := f.left;
      out[at + 1] := f.right;
    }

    /** Zeros for a whole missing period, otherwise the samples just written, played backwards. */
    static method Fill(out: array<int>, ghost fs: seq<Frame>, ghost len: nat, left: nat, start: nat)
      requires start == 2 * |fs| && left == len - |fs| && 2 * len <= out.Length && |fs| <= len
      requires Written(out[..], fs)
      modifies out
      ensures Filled(out[..], fs, len)
    {
      if left > 0 && left == SAMPLES {
        forall j | start <= j < start + 2 * left { out[j] := 0; }
        return;
      }
      var at, back, todo := start, start - 1, left;
      while todo > 0
        invariant 0 <= todo <= left && at == start + 2 * (left - todo)
        invariant back == (if start - 1 - (at - start) > 0 then start - 1 - (at - start) else if start == 0 then -1 else 0)
        invariant forall j :: 0 <= j < start ==> out[j] == Sample(fs, j)
        invariant forall j :: start <= j < at ==> out[j] == Mirror(fs, j - start)
      {
        if back > 0 { back := back - 1; out[at] := out[back]; } else { out[at] := 0; }
        at := at + 1;
        if back > 0 { back := back - 1; out[at] := out[back]; } else { out[at] := 0; }
        at := at + 1;
        todo := todo - 1;
      }
    }

    /** Puts one frame into a ring that is not full. */
    method PushFrame(f: Frame)
      requires Valid() && frameCount > 0 && frameIn != frameFilled
      modifies this`frameIn, this`queue, this`pushed, buffer
      ensures Valid() && queue == old(queue) + [f] && pushed == old(pushed) + [f]
    {
      HeldPush(buffer[..], frameOut, frameIn, f);
      buffer[frameIn] := f;
      frameIn := frameIn + 1;
      if frameIn >= frameCount { frameIn := 0; }
      queue, pushed := queue + [f], pushed + [f];
    }

    /** SND_resampleNone: every frame once. */
    method ResampleNone(f: Frame) returns (used: nat)
      requires Valid() && Lawful() && frameCount > 0 && frameIn != frameFilled && rateIn == rateOut && diff == 0
      requires taken < |input| && f == input[taken]
      modifies this`frameIn, this`queue, this`pushed, this`taken, buffer
      ensures Valid() && Lawful() && diff == 0
      ensures used == 1 && queue == old(queue) + [f] && taken == old(taken) + 1
      ensures Now() == Offer(Works(), old(Now())) && used == Uses(Works(), old(Now()))
    {
      PushFrame(f);
      taken := taken + 1;
      LawNear(input, old(pushed), old(taken), diff, rateIn, rateOut, pushed, taken, diff);
      used := 1;
    }

    /** SND_resampleNear: the accumulator decides whether the frame goes in and whether it is used up. */
    method ResampleNear(f: Frame) returns (used: nat)
      requires Valid() && Lawful() && frameCount > 0 && frameIn != frameFilled
      requires taken < |input| && f == input[taken]
      modifies this`frameIn, this`queue, this`pushed, this`taken, this`diff, buffer
      ensures Valid() && Lawful()
      ensures used <= 1 && taken == old(taken) + used
      ensures |old(queue)| <= |queue| <= |old(queue)| + 1
      ensures used + (|queue| - |old(queue)|) > 0
      ensures Now() == Offer(Works(), old(Now())) && used == Uses(Works(), old(Now()))
    {
      used := 0;
      if diff < rateOut {
        PushFrame(f);
        diff := diff + rateIn;
      }
      if diff >= rateOut {
        used := 1;
        diff := diff - rateOut;
        taken := taken + 1;
      }
      LawNear(input, old(pushed), old(taken), old(diff), rateIn, rateOut, pushed, taken, diff);
    }

    /** SND_selectResampler: the direct copy when the rates agree. */
    method Resample(f: Frame) returns (used: nat)
      requires Valid() && Lawful() && frameCount > 0 && frameIn != frameFilled
      requires taken < |input| && f == input[taken] && (rateIn == rateOut ==> diff == 0)
      modifies this`frameIn, this`queue, this`pushed, this`taken, this`diff, buffer
      ensures Valid() && Lawful() && (rateIn == rateOut ==> diff == 0)
      ensures used <= 1 && taken == old(taken) + used
      ensures used + (|queue| - |old(queue)|) > 0 && |old(queue)| <= |queue|
      ensures Now() == Offer(Works(), old(Now())) && used == Uses(Works(), old(Now()))
    {
      if rateIn == rateOut { used := ResampleNone(f); } else { used := ResampleNear(f); }
    }

    /** The callbacks that run while the producer has released the lock: each takes what there is of its
        request. */
    method Released(requests: seq<nat>)
      requires Valid() && frameCount > 0
      modifies this`frameOut, this`frameFilled, this`queue, this`delivered, this`asked
      ensures Valid() && asked == old(asked) + requests && Now() == ServeAll(old(Now()), requests, |requests|)
      ensures old(delivered) <= delivered
    {
      for i := 0 to |requests|
        invariant Valid() && asked == old(asked) + requests[..i] && old(delivered) <= delivered
        invariant Now() == ServeAll(old(Now()), requests, i)
      {
        ghost var heard := delivered;
        Request(requests[i]);
        PrefixThrough(old(delivered), heard, delivered);
      }
    }

    method Request(len: nat)
      requires Valid() && frameCount > 0
      modifies this`frameOut, this`frameFilled, this`queue, this`delivered, this`asked
      ensures Valid() && asked == old(asked) + [len] && Now() == Serve(old(Now()), len) && old(delivered) <= delivered
    {
      var out := new int[2 * len];
      ghost var popped := AudioCallback(out, len);
    }

    /** The inner loop of SND_batchSamples: it ends because every round uses up a frame of the batch or
        a free slot of the ring. */
    method PushSome(frames: seq<Frame>, pos: nat, amount: nat) returns (pos': nat)
      requires Valid() && Lawful() && frameCount > 0 && (rateIn == rateOut ==> diff == 0)
      requires pos + amount <= |frames| && taken + |frames| - pos == |input| && frames[pos..] == input[taken..]
      modifies this`frameIn, this`queue, this`pushed, this`taken, this`diff, buffer
      ensures Valid() && Lawful() && (rateIn == rateOut ==> diff == 0)
      ensures pos <= pos' <= pos + amount && |old(queue)| <= |queue|
      ensures taken + |frames| - pos' == |input| && frames[pos'..] == input[taken..]
      ensures Feed(Works(), old(Now()), amount) == Fed(Now(), amount - (pos' - pos))
    {
      pos' := pos;
      var left := amount;
      Room();
      while left > 0 && frameIn != frameFilled
        invariant Valid() && Lawful() && (rateIn == rateOut ==> diff == 0)
        invariant pos' + left == pos + amount && 0 <= left <= amount && |old(queue)| <= |queue|
        invariant taken + |frames| - pos' == |input| && frames[pos'..] == input[taken..]
        invariant Feed(Works(), old(Now()), amount) == Feed(Works(), Now(), left)
        invariant 0 <= Free() && (Full(Works(), Now()) <==> frameIn == frameFilled)
        decreases left + Free()
      {
        var used := PushOne(frames, pos', left);
        pos', left := pos' + used, left - used;
      }
    }

    method PushOne(frames: seq<Frame>, pos: nat, ghost left: nat) returns (used: nat)
      requires Valid() && Lawful() && frameCount > 0 && frameIn != frameFilled && (rateIn == rateOut ==> diff == 0)
      requires pos < |frames| && taken + |frames| - pos == |input| && frames[pos..] == input[taken..] && left > 0
      modifies this`frameIn, this`queue, this`pushed, this`taken, this`diff, buffer
      ensures Valid() && Lawful() && (rateIn == rateOut ==> diff == 0)
      ensures used <= 1 && Feed(Works(), old(Now()), left) == Feed(Works(), Now(), left - used)
      ensures taken + |frames| - (pos + used) == |input| && frames[pos + used..] == input[taken..]
      ensures used + |queue| > |old(queue)| && |old(queue)| <= |queue| && 0 <= Free()
      ensures Now() == Offer(Works(), old(Now())) && used == Uses(Works(), old(Now()))
      ensures Full(Works(), Now()) <==> frameIn == frameFilled
    {
      assert frames[pos] == frames[pos..][0] == input[taken];
      Room();
      FeedStep(Works(), Now(), left);
      used := Resample(frames[pos]);
      Room();
      assert used == 1 ==> frames[pos + 1..] == frames[pos..][1..] && input[taken..] == input[taken - 1..][1..];
    }

    /** SND_batchSamples. `schedule` lists the callbacks that run at each release of the lock; where it is
        exhausted and the ring still full, the program would wait on, and the model stops. */
    method BatchSamples(frames: seq<Frame>, schedule: seq<seq<nat>>) returns (consumed: nat, finished: bool, used: nat)
      requires Valid() && Lawful() && taken == |input| && (rateIn == rateOut ==> diff == 0)
      modifies this`frameIn, this`frameOut, this`frameFilled, this`queue, this`pushed, this`delivered,
               this`taken, this`diff, this`input, this`asked, buffer
      ensures Valid() && Lawful() && (rateIn == rateOut ==> diff == 0)
      ensures input == old(input) + (if frameCount == 0 then [] else frames)
      ensures taken == old(taken) + consumed && consumed <= |frames|
      ensures frameCount > 0 && finished ==> consumed == |frames|
      ensures frameCount == 0 ==> consumed == 0 && finished
      ensures used <= |schedule| && asked == old(asked) + Flat(schedule, used) && old(delivered) <= delivered
      ensures !finished ==> used == |schedule| && frameIn == frameFilled && consumed < |frames|
      ensures frameCount > 0 ==> |old(queue)| < frameCount
      ensures frameCount > 0 ==> BatchLevel(Works(), old(Now()), |frames|, schedule, 0) == Batched(Now(), |frames| - consumed, used, finished)
    {
      consumed, finished, used := 0, true, 0;
      if frameCount == 0 { return; }
      LawMoreInput(input, frames, pushed, taken, diff, rateIn, rateOut);
      input := input + frames;
      assert input[taken..] == frames[0..];
      consumed, finished, used := Rounds(frames, schedule);
    }

    /** The outer loop. */
    method Rounds(frames: seq<Frame>, schedule: seq<seq<nat>>) returns (pos: nat, finished: bool, used: nat)
      requires Valid() && Lawful() && frameCount > 0 && (rateIn == rateOut ==> diff == 0)
      requires taken + |frames| == |input| && frames[0..] == input[taken..]
      modifies this`frameIn, this`frameOut, this`frameFilled, this`queue, this`pushed, this`delivered,
               this`taken, this`diff, this`asked, buffer
      ensures Valid() && Lawful() && (rateIn == rateOut ==> diff == 0) && old(delivered) <= delivered
      ensures pos <= |frames| && taken == old(taken) + pos && (finished ==> pos == |frames|)
      ensures used <= |schedule| && asked == old(asked) + Flat(schedule, used)
      ensures !finished ==> used == |schedule| && frameIn == frameFilled && pos < |frames|
      ensures |old(queue)| < frameCount
      ensures BatchLevel(Works(), old(Now()), |frames|, schedule, 0) == Batched(Now(), |frames| - pos, used, finished)
    {
      pos, finished, used := 0, true, 0;
      Room();
      while pos < |frames|
        invariant Valid() && Lawful() && (rateIn == rateOut ==> diff == 0) && old(delivered) <= delivered
        invariant pos <= |frames| && taken + |frames| - pos == |input| && frames[pos..] == input[taken..]
        invariant used <= |schedule| && asked == old(asked) + Flat(schedule, used)
        invariant |queue| < frameCount
        invariant BatchLevel(Works(), old(Now()), |frames|, schedule, 0) == BatchLevel(Works(), Now(), |frames| - pos, schedule, used)
        decreases |schedule| - used, |frames| - pos + frameCount - |queue|
      {
        ghost var heard := delivered;
        var stalled;
        pos, stalled, used := Round(frames, pos, schedule, used, old(asked));
        PrefixThrough(old(delivered), heard, delivered);
        if stalled { return pos, false, used; }
      }
    }

    /** One round of the outer loop: it takes a release of the lock, a frame or a free slot. */
    method Round(frames: seq<Frame>, pos: nat, schedule: seq<seq<nat>>, used: nat, ghost before: seq<nat>)
        returns (pos': nat, stalled: bool, used': nat)
      requires Valid() && Lawful() && frameCount > 0 && (rateIn == rateOut ==> diff == 0)
      requires pos < |frames| && taken + |frames| - pos == |input| && frames[pos..] == input[taken..]
      requires used <= |schedule| && asked == before + Flat(schedule, used)
      modifies this`frameIn, this`frameOut, this`frameFilled, this`queue, this`pushed, this`delivered,
               this`taken, this`diff, this`asked, buffer
      ensures Valid() && Lawful() && (rateIn == rateOut ==> diff == 0) && old(delivered) <= delivered
      ensures pos <= pos' <= |frames| && taken + |frames| - pos' == |input| && frames[pos'..] == input[taken..]
      ensures used <= used' <= |schedule| && asked == before + Flat(schedule, used')
      ensures stalled ==> pos' == pos && used' == |schedule| && frameIn == frameFilled
      ensures RoundLevel(Works(), old(Now()), |frames| - pos, schedule, used) == Batched(Now(), |frames| - pos', used', !stalled)
    {
      var amount := if |frames| - pos < BATCH_SIZE then |frames| - pos else BATCH_SIZE;
      stalled, used' := WaitForRoom(schedule, used, before);
      pos' := pos;
      if !stalled { pos' := PushSome(frames, pos, amount); }
    }

    /** Up to ten releases of the lock while the ring is full. */
    method WaitForRoom(schedule: seq<seq<nat>>, used: nat, ghost before: seq<nat>) returns (stalled: bool, used': nat)
      requires Valid() && frameCount > 0 && used <= |schedule| && asked == before + Flat(schedule, used)
      modifies this`frameOut, this`frameFilled, this`queue, this`delivered, this`asked
      ensures Valid() && old(delivered) <= delivered
      ensures used <= used' <= |schedule| && used' - used <= MAX_TRIES && asked == before + Flat(schedule, used')
      ensures used' == used ==> queue == old(queue)
      ensures used' < used + MAX_TRIES && !stalled ==> frameIn != frameFilled
      ensures stalled ==> used' == |schedule| && frameIn == frameFilled
      ensures Wait(Works(), old(Now()), schedule, used, 0) == Waited(Now(), used', stalled)
    {
      stalled, used' := false, used;
      Room();
      var tries := 0;
      while tries < MAX_TRIES && frameIn == frameFilled
        invariant Valid() && old(delivered) <= delivered
        invariant used' == used + tries <= |schedule| && tries <= MAX_TRIES && asked == before + Flat(schedule, used')
        invariant Wait(Works(), old(Now()), schedule, used, 0) == Wait(Works(), Now(), schedule, used', tries)
        invariant (Full(Works(), Now()) <==> frameIn == frameFilled) && (tries == 0 ==> queue == old(queue))
      {
        if used' == |schedule| { return true, used'; }
        tries := tries + 1;
        Released(schedule[used']);
        Room();
        used' := used' + 1;
      }
    }

    /** A whole session on a ring: batches with their schedules, and callbacks between them. It ends early
        only inside a batch that finds the ring full and no callback coming. */
    method Play(events: seq<Event>) returns (done: nat)
      requires Valid() && Lawful() && taken == |input| && frameCount > 0 && (rateIn == rateOut ==> diff == 0)
      modifies this`frameIn, this`frameOut, this`frameFilled, this`queue, this`pushed, this`delivered,
               this`taken, this`diff, this`input, this`asked, buffer
      ensures Valid() && Lawful() && done <= |events| && old(delivered) <= delivered
      ensures |old(queue)| < frameCount
      ensures var r := PlayAll(Works(), old(Now()), events);
        Now() == r.level && done == r.done && input == old(input) + r.frames && asked == old(asked) + r.asks
      ensures done == |events| ==> taken == |input|
      ensures done < |events| ==> events[done].Batch? && taken < |input| && frameIn == frameFilled
      decreases |events|
    {
      done := 0;
      Room();
      if events == [] { return; }
      ghost var g, now := Works(), Now();
      var finished := PlayOne(events[0]);
      if !finished { return; }
      ghost var heard, r := delivered, PlayAll(g, Now(), events[1..]);
      done := Play(events[1..]);
      PrefixThrough(old(delivered), heard, delivered);
      Joined(old(input), FramesOf(events[0]), r.frames);
      Joined(old(asked), EventAsks(g, now, events[0]), r.asks);
      done := done + 1;
    }

    method PlayOne(event: Event) returns (finished: bool)
      requires Valid() && Lawful() && taken == |input| && frameCount > 0 && (rateIn == rateOut ==> diff == 0)
      modifies this`frameIn, this`frameOut, this`frameFilled, this`queue, this`pushed, this`delivered,
               this`taken, this`diff, this`input, this`asked, buffer
      ensures Valid() && Lawful() && old(delivered) <= delivered && (rateIn == rateOut ==> diff == 0)
      ensures input == old(input) + FramesOf(event)
      ensures finished ==> taken == |input|
      ensures !finished ==> event.Batch? && taken < |input| && frameIn == frameFilled
      ensures |old(queue)| < frameCount && Now() == EventLevel(Works(), old(Now()), event)
      ensures asked == old(asked) + EventAsks(Works(), old(Now()), event) && (finished <==> EventEnds(Works(), old(Now()), event))
    {
      Room();
      finished := true;
      match event {
        case Batch(frames, schedule) =>
          var consumed, used;
          consumed, finished, used := BatchSamples(frames, schedule);
        case Callbacks(requests) =>
          Released(requests);
      }
    }
  }

  /** From SND_init on: whatever is batched and whenever the callback runs, what has been delivered is the
      input at the output's rate, without drift, loss or reordering. */
  method Session(rateIn: nat, rateOut: nat, count: nat, events: seq<Event>) returns (s: Context, done: nat)
    requires rateIn > 0 && rateOut > 0 && count > 0
    ensures s.Valid() && done <= |events| && s.rateIn == rateIn && s.rateOut == rateOut
    ensures var r := PlayAll(Gear(count, rateIn, rateOut), Level(0, 0, 0), events);
      s.Now() == r.level && done == r.done && s.input == r.frames && s.asked == r.asks
    ensures Nearest(s.input, s.delivered, rateIn, rateOut) && Nearest(s.input, s.delivered + s.queue, rateIn, rateOut)
    ensures 0 <= |s.pushed| * rateIn - s.taken * rateOut < Max(rateIn, rateOut)
    ensures s.input == Input(events, if done < |events| then done + 1 else done)
    ensures done == |events| ==> s.taken == |s.input|
    ensures done < |events| ==> s.frameIn == s.frameFilled
  {
    s := new Context(rateIn, rateOut);
    s.ResizeBuffer(count, true);
    done := s.Play(events);
    PlayedInput(Gear(count, rateIn, rateOut), Level(0, 0, 0), events);
    s.DeliveredNearest();
  }
}

/** Cancelling an MTP upload: the ep0 thread (cancel and status requests, suspend) and the thread that
    receives the file share cancel_req and transferring_file_data. Every action is one read or one write
    of these; during an upload cancel_mutex is taken by the ep0 thread alone and orders nothing between the
    two. */
module CancelHandshake {

  datatype Ep0 =
    | Waiting
    | SuspendRead | CancelRead | CancelSet | CancelReset
    | StatusRead | StatusTest | StatusReset | BusyTest | BusySet

  /** `full` says that the last packet had the maximal size, so that another one follows. */
  datatype Transfer =
    | Idle | First | Loop(full: bool) | Test | Read | Write(full: bool) | End | Check | Clear

  datatype Reply = NoReply | Ok | Silent

  datatype Shared = Shared(cancelReq: int, transferring: bool, ep0: Ep0, transfer: Transfer)

  /** What has happened to the current or last transfer: a nonzero cancel_req was stored while it ran, and
      how many packets it had written when that first happened; cancel_req was nonzero when it began, and whether a reset ran while it ran;
      whether between its end and its look at cancel_req a nonzero value was stored or a reset ran; how
      many packets it wrote and how it was answered; how many packets arrived, and whether the last one was
      not full, or its reading failed, so that nothing more is to come. */
  datatype Notes = Notes(hit: bool, atHit: nat, leftover: bool, cleared: bool, late: bool, wiped: bool,
                         packets: nat, reply: Reply, arrived: nat, ended: bool)

  /** How many status requests were answered, and how many of them with BUSY. */
  datatype Answers = Answers(polls: nat, busies: nat)

  datatype State = State(v: Shared, n: Notes, q: Answers)

  datatype Action =
    | Cancel | Suspend | Status              // a request arrives
    | Ep0                                    // the ep0 thread takes its next step
    | Begin                                  // a data phase begins
    | FirstPacket(some: bool, full: bool)    // the data that came with the header
    | Packet(received: bool, full: bool)     // read_usb returns; a signal makes it fail
    | Receiver                               // any other step of the receiving thread

  function Ep0Next(v: Shared): Shared {
    match v.ep0
    case Waiting => v
    case SuspendRead => v.(ep0 := if v.transferring then CancelRead else Waiting)
    case CancelRead => v.(ep0 := if v.transferring then CancelSet else CancelReset)
    case CancelSet => v.(ep0 := Waiting, cancelReq := 2)
    case CancelReset => v.(ep0 := Waiting, cancelReq := 0)
    case StatusRead => v.(ep0 := if v.cancelReq != 2 then StatusTest else BusyTest)
    case StatusTest => v.(ep0 := if v.transferring then Waiting else StatusReset)
    case StatusReset => v.(ep0 := Waiting, cancelReq := 0)
    case BusyTest => v.(ep0 := if v.cancelReq == 2 then BusySet else Waiting)
    case BusySet => v.(ep0 := Waiting, cancelReq := 1)
  }

  function Ep0Notes(v: Shared, n: Notes): Notes {
    if v.ep0.CancelSet? || v.ep0.BusySet? then Stored(v, n)
    else if v.ep0.CancelReset? || v.ep0.StatusReset? then Reset(v, n)
    else n
  }

  function Ep0Answers(v: Shared, q: Answers): Answers {
    match v.ep0
    case StatusTest => if v.transferring then q.(polls := q.polls + 1) else q
    case StatusReset => q.(polls := q.polls + 1)
    case BusyTest => if v.cancelReq == 2 then q else Answers(q.polls + 1, q.busies + 1)
    case BusySet => Answers(q.polls + 1, q.busies + 1)
    case _ => q
  }

  /** A nonzero value is stored. */
  function Stored(v: Shared, n: Notes): Notes {
    if v.transferring && !n.hit then n.(hit := true, atHit := n.packets)
    else if v.transfer.Check? then n.(late := true) else n
  }

  function Reset(v: Shared, n: Notes): Notes {
    if v.transferring then n.(cleared := true) else if v.transfer.Check? then n.(wiped := true) else n
  }

  function OnePacket(n: Notes): Notes { n.(packets := n.packets + 1) }

  function ReceiverNext(v: Shared): Shared {
    match v.transfer
    case Loop(full) => v.(transfer := if full then Test else End)
    case Test => v.(transfer := if v.cancelReq != 0 then End else Read)
    case Write(full) => v.(transfer := Loop(full))
    case End => v.(transfer := Check, transferring := false)
    case Check => v.(transfer := if v.cancelReq != 0 then Clear else Idle)
    case Clear => v.(transfer := Idle, cancelReq := 0)
    case _ => v
  }

  function ReceiverNotes(v: Shared, n: Notes): Notes {
    match v.transfer
    case Write(_) => OnePacket(n)
    case Check => n.(reply := if v.cancelReq != 0 then Silent else Ok)
    case _ => n
  }

  /** One step; an action that is not possible in `s` changes nothing. */
  function Step(s: State, a: Action): State {
    var v, n := s.v, s.n;
    match a
    case Cancel => if v.ep0.Waiting? then s.(v := v.(ep0 := CancelRead)) else s
    case Suspend => if v.ep0.Waiting? then s.(v := v.(ep0 := SuspendRead)) else s
    case Status => if v.ep0.Waiting? then s.(v := v.(ep0 := StatusRead)) else s
    case Ep0 => State(Ep0Next(v), Ep0Notes(v, n), Ep0Answers(v, s.q))
    case Begin =>
      if v.transfer.Idle? then s.(v := v.(transfer := First, transferring := true), n := Fresh(v.cancelReq != 0)) else s
    case FirstPacket(some, full) =>
      if v.transfer.First? then s.(v := v.(transfer := Loop(full)), n := Arrived(if some then OnePacket(n) else n, some, full)) else s
    case Packet(received, full) =>
      if v.transfer.Read?
      then s.(v := v.(transfer := if received then Write(full) else Loop(false)), n := Arrived(n, received, received && full))
      else s
    case Receiver => s.(v := ReceiverNext(v), n := ReceiverNotes(v, n))
  }

  function Fresh(leftover: bool): Notes { Notes(false, 0, leftover, false, false, false, 0, NoReply, 0, false) }

  function Arrived(n: Notes, some: bool, more: bool): Notes {
    n.(arrived := if some then n.arrived + 1 else n.arrived, ended := !more)
  }

  function Run(s: State, actions: seq<Action>): State {
    if actions == [] then s else Step(Run(s, actions[..|actions| - 1]), actions[|actions| - 1])
  }

  predicate Initial(s: State) {
    s.v == Shared(0, false, Waiting, Idle) && s.n == Fresh(false) && s.q == Answers(0, 0)
  }

  // ---------- at most one more packet ----------

  predicate Receiving(t: Transfer) { !t.Idle? && !t.Check? && !t.Clear? }

  /** What the transfer will find in cancel_req, as far as its own time goes. */
  predicate Cancelled(n: Notes) { n.hit || (n.leftover && !n.cleared) }

  /** While it runs, cancel_req is set exactly when something has set it and not been reset. */
  predicate Running(v: Shared, n: Notes) {
    && 0 <= v.cancelReq <= 2 && (v.transferring <==> Receiving(v.transfer))
    && (Receiving(v.transfer) ==> n.reply == NoReply && !n.wiped && !n.late && (v.cancelReq != 0 <==> Cancelled(n)))
    && (n.hit && Receiving(v.transfer) ==> !v.ep0.CancelReset? && !v.ep0.StatusReset?)
  }

  /** A store stops it after at most one packet, a value left over after the first. */
  predicate Stops(v: Shared, n: Notes) {
    && (n.hit ==> n.atHit <= n.packets <= n.atHit + 1)
    && (n.hit && n.packets == n.atHit + 1 ==> !v.transfer.First? && !v.transfer.Read? && !v.transfer.Write?)
    && (v.transfer.First? ==> n.packets == 0)
    && (n.leftover && !n.cleared ==> n.packets <= 1 && !v.transfer.Read? && !v.transfer.Write?)
  }

  /** In the gap it is set exactly when it was set before or has been set since, unless reset; and the
      answer follows from that. */
  predicate Gap(v: Shared, n: Notes) {
    && (v.transfer.Check? ==> n.reply == NoReply && (v.cancelReq != 0 <==> (Cancelled(n) || n.late) && !n.wiped))
    && (v.transfer.Check? && n.wiped ==> !v.ep0.CancelSet? && !v.ep0.BusySet? && !v.ep0.BusyTest?)
    && (v.transfer.Clear? ==> n.reply == Silent)
    && (n.reply != NoReply ==> (n.reply == Silent <==> (Cancelled(n) || n.late) && !n.wiped))
  }

  /** Every packet that arrives is written, and the loop is left only behind the last one, or for cancel_req. */
  predicate Takes(v: Shared, n: Notes) {
    && n.arrived == n.packets + (if v.transfer.Write? then 1 else 0)
    && (v.transfer.First? || v.transfer.Test? || v.transfer.Read? ==> !n.ended)
    && (v.transfer.Loop? ==> n.ended == !v.transfer.full) && (v.transfer.Write? ==> n.ended == !v.transfer.full)
    && (HasLeft(v, n) ==> n.ended || n.hit || n.leftover)
  }

  predicate HasLeft(v: Shared, n: Notes) { v.transfer.End? || v.transfer.Check? || v.transfer.Clear? || n.reply != NoReply }

  predicate Invariant(s: State) { Running(s.v, s.n) && Stops(s.v, s.n) && Gap(s.v, s.n) && Takes(s.v, s.n) }

  lemma Ep0Keeps(v: Shared, n: Notes)
    requires Running(v, n)
    ensures Running(Ep0Next(v), Ep0Notes(v, n))
    ensures Stops(v, n) ==> Stops(Ep0Next(v), Ep0Notes(v, n))
  {
  }

  lemma Ep0KeepsGap(v: Shared, n: Notes)
    requires Running(v, n) && Gap(v, n)
    ensures Gap(Ep0Next(v), Ep0Notes(v, n))
  {
  }

  lemma Ep0Takes(v: Shared, n: Notes)
    requires Takes(v, n)
    ensures Takes(Ep0Next(v), Ep0Notes(v, n))
  {
  }

  lemma ReceiverKeeps(v: Shared, n: Notes)
    requires Running(v, n) && Stops(v, n) && Gap(v, n)
    ensures var v', n' := ReceiverNext(v), ReceiverNotes(v, n); Running(v', n') && Stops(v', n') && Gap(v', n')
  {
  }

  lemma ReceiverTakes(v: Shared, n: Notes)
    requires Running(v, n) && Takes(v, n)
    ensures Takes(ReceiverNext(v), ReceiverNotes(v, n))
  {
  }

  lemma RequestKeeps(s: State, a: Action)
    requires Invariant(s) && (a.Cancel? || a.Suspend? || a.Status?)
    ensures Invariant(Step(s, a))
  {
  }

  lemma BeginKeeps(s: State)
    requires Invariant(s)
    ensures Invariant(Step(s, Begin))
  {
  }

  lemma PacketKeeps(s: State, a: Action)
    requires Invariant(s) && (a.FirstPacket? || a.Packet?)
    ensures Invariant(Step(s, a))
  {
  }

  lemma StepKeeps(s: State, a: Action)
    requires Invariant(s)
    ensures Invariant(Step(s, a))
  {
    match a
    case Ep0 => Ep0Keeps(s.v, s.n); Ep0KeepsGap(s.v, s.n); Ep0Takes(s.v, s.n);
    case Receiver => ReceiverKeeps(s.v, s.n); ReceiverTakes(s.v, s.n);
    case Begin => BeginKeeps(s);
    case FirstPacket(_, _) => PacketKeeps(s, a);
    case Packet(_, _) => PacketKeeps(s, a);
    case _ => RequestKeeps(s, a);
  }

  lemma {:induction false} RunKeeps(s: State, actions: seq<Action>)
    requires Initial(s)
    ensures Invariant(Run(s, actions))
  {
    if actions != [] {
      var n := |actions| - 1;
      RunKeeps(s, actions[..n]);
      StepKeeps(Run(s, actions[..n]), actions[n]);
    }
  }

  /** While a transfer runs, cancel_req is set exactly when something has set it and not been reset. A value left
      over from before, and not reset, stops it after the packet that came with the header. */
  lemma CancelSeen(s: State, actions: seq<Action>)
    requires Initial(s)
    ensures var t := Run(s, actions);
      && (t.v.transferring ==> (t.v.cancelReq != 0 <==> t.n.hit || (t.n.leftover && !t.n.cleared)))
      && (t.n.leftover && !t.n.cleared ==> t.n.packets <= 1)
  {
    RunKeeps(s, actions);
  }

  /** At `k` the ep0 thread stores a nonzero cancel_req, for a cancel or with a BUSY answer, while a transfer runs. */
  ghost predicate StoresAt(s: State, actions: seq<Action>, k: nat) {
    && k < |actions| && actions[k] == Ep0
    && var v := Run(s, actions[..k]).v; v.transferring && (v.ep0.CancelSet? || v.ep0.BusySet?)
  }

  /** No new transfer begins from `k` on. */
  ghost predicate SameTransfer(s: State, actions: seq<Action>, k: nat) {
    forall j: nat :: k <= j < |actions| && actions[j] == Begin ==> !Run(s, actions[..j]).v.transfer.Idle?
  }

  /** In every interleaving a transfer writes at most one more packet after any such store. */
  lemma CancelStops(s: State, actions: seq<Action>, k: nat)
    requires Initial(s) && StoresAt(s, actions, k) && SameTransfer(s, actions, k)
    ensures Run(s, actions[..k]).n.packets <= Run(s, actions).n.packets <= Run(s, actions[..k]).n.packets + 1
  {
    RunKeeps(s, actions[..k]);
    RunKeeps(s, actions);
    var t := Run(s, actions[..k]);
    assert actions[..k + 1][..k] == actions[..k];
    HitStays(s, actions, k + 1, Step(t, Ep0).n.atHit, t.n.packets);
  }

  /** The first store stays on record. */
  lemma {:induction false} HitStays(s: State, actions: seq<Action>, k: nat, at: nat, packets: nat)
    requires k <= |actions| && SameTransfer(s, actions, k)
    requires var n := Run(s, actions[..k]).n; n.hit && n.atHit == at && n.packets >= packets
    ensures var n := Run(s, actions).n; n.hit && n.atHit == at && n.packets >= packets
  {
    if k == |actions| { assert actions[..k] == actions; }
    else {
      var m := |actions| - 1;
      assert actions[..m][..k] == actions[..k];
      forall j: nat | k <= j < m ensures actions[..m][..j] == actions[..j] { }
      HitStays(s, actions[..m], k, at, packets);
      HitStep(Run(s, actions[..m]), actions[m]);
    }
  }

  lemma HitStep(s: State, a: Action)
    requires s.n.hit && !(a == Begin && s.v.transfer.Idle?)
    ensures var n := Step(s, a).n; n.hit && n.atHit == s.n.atHit && n.packets >= s.n.packets
  {
    HitNotes(s.v, s.n);
  }

  lemma HitNotes(v: Shared, n: Notes)
    requires n.hit
    ensures var e, r := Ep0Notes(v, n), ReceiverNotes(v, n);
      e.hit && e.atHit == n.atHit && e.packets == n.packets && r.hit && r.atHit == n.atHit && r.packets >= n.packets
  {
  }

  /** A transfer is left unanswered exactly when cancel_req was stored during it, or left over and not
      reset, or stored between its end and its last look; and no reset came in that gap. */
  lemma SilentExactly(s: State, actions: seq<Action>)
    requires Initial(s) && Run(s, actions).n.reply != NoReply
    ensures var n := Run(s, actions).n;
      n.reply == Silent <==> (n.hit || (n.leftover && !n.cleared) || n.late) && !n.wiped
  {
    RunKeeps(s, actions);
  }

  // ---------- one request ----------

  /** A cancel request, handled while nothing else happens, sets cancel_req to 2 during a transfer and resets it
      otherwise; */
  lemma CancelRequest(s: State)
    requires s.v.ep0.Waiting?
    ensures var t := Step(Step(Step(s, Cancel), Ep0), Ep0);
      t.v == s.v.(cancelReq := if s.v.transferring then 2 else 0) && t.q == s.q && t.n.packets == s.n.packets
  {
  }

  /** a suspend does so during a transfer, and nothing otherwise; */
  lemma SuspendRequest(s: State)
    requires s.v.ep0.Waiting?
    ensures var t := Step(Step(Step(Step(s, Suspend), Ep0), Ep0), Ep0);
      t.v == s.v.(cancelReq := if s.v.transferring then 2 else s.v.cancelReq) && t.q == s.q && t.n.packets == s.n.packets
  {
  }

  /** a status request is answered BUSY for a cancel not yet answered, which becomes 1, and OK otherwise, with a
      reset if no transfer runs. */
  lemma StatusRequest(s: State)
    requires s.v.ep0.Waiting?
    ensures var t := Step(Step(Step(Step(s, Status), Ep0), Ep0), Ep0);
      && t.v == s.v.(cancelReq := if s.v.cancelReq == 2 then 1 else if s.v.transferring then s.v.cancelReq else 0)
      && t.q == Answers(s.q.polls + 1, s.q.busies + if s.v.cancelReq == 2 then 1 else 0) && t.n.packets == s.n.packets
  {
  }

  // ---------- the whole file ----------

  /** Every packet that has arrived is written, but the one just read; and a transfer that has left its loop has
      taken its last packet, unless a nonzero value was stored during it or left over from before. */
  lemma AllTaken(s: State, actions: seq<Action>)
    requires Initial(s)
    ensures var t := Run(s, actions);
      && t.n.packets == t.n.arrived - (if t.v.transfer.Write? then 1 else 0)
      && (HasLeft(t.v, t.n) && !t.n.hit && !t.n.leftover ==> t.n.ended)
  {
    RunKeeps(s, actions);
  }

  /** What the loop does next: behind the last packet it ends, behind any other it reads on exactly if nothing has
      set cancel_req or what was left over has been reset. */
  lemma ReadsOnExactly(s: State, actions: seq<Action>)
    requires Initial(s)
    ensures var t := Run(s, actions); var next := Step(t, Receiver).v.transfer;
      && (t.v.transfer.Loop? ==> next == if t.n.ended then End else Test)
      && (t.v.transfer.Test? ==> !t.n.ended && next == if t.n.hit || (t.n.leftover && !t.n.cleared) then End else Read)
  {
    RunKeeps(s, actions);
  }

  function StepsToWait(t: Transfer): nat {
    match t
    case Write(_) => 6
    case Loop(_) => 5
    case Test => 4
    case End => 3
    case Check => 2
    case Clear => 1
    case _ => 0
  }

  function StepsToRequest(e: Ep0): nat {
    match e
    case Waiting => 0
    case SuspendRead => 3
    case StatusRead => 3
    case CancelRead => 2
    case StatusTest => 2
    case BusyTest => 2
    case _ => 1
  }

  /** Neither thread ever waits for the other: by its own steps the receiver comes to the next packet, or to the
      end, and the ep0 thread to the next request, and the steps of the others do not take them back. */
  lemma BothAdvance(s: State, a: Action)
    ensures var t := Step(s, Receiver).v.transfer;
      StepsToWait(s.v.transfer) > StepsToWait(t) || (t == s.v.transfer && (t.Idle? || t.First? || t.Read?))
    ensures StepsToRequest(s.v.ep0) > StepsToRequest(Step(s, Ep0).v.ep0) || (s.v.ep0.Waiting? && Step(s, Ep0).v.ep0.Waiting?)
    ensures StepsToWait(s.v.transfer) > 0 && !a.Receiver? ==> Step(s, a).v.transfer == s.v.transfer
    ensures !s.v.ep0.Waiting? && !a.Ep0? ==> Step(s, a).v.ep0 == s.v.ep0
  {
  }

  // ---------- the exceptions happen ----------

  lemma Then(s: State, actions: seq<Action>, a: Action) returns (more: seq<Action>)
    ensures Run(s, more) == Step(Run(s, actions), a)
  {
    more := actions + [a];
    assert more[..|actions|] == actions;
  }

  /** A transfer begins and writes the packet that came with the header. */
  lemma ThenUpload(s: State, actions: seq<Action>, full: bool) returns (more: seq<Action>)
    requires Run(s, actions).v.transfer.Idle?
    ensures var v, u := Run(s, actions).v, Run(s, more);
      && u.v == Shared(v.cancelReq, true, v.ep0, Loop(full))
      && u.n == Fresh(v.cancelReq != 0).(packets := 1, arrived := 1, ended := !full)
  {
    more := Then(s, actions, Begin);
    more := Then(s, more, FirstPacket(true, full));
  }

  /** It ends: after its last packet, or after one more test if that was a full one and cancel_req is set. */
  lemma ThenEnd(s: State, actions: seq<Action>) returns (more: seq<Action>)
    requires var v := Run(s, actions).v; v.transfer.Loop? && (v.transfer.full ==> v.cancelReq != 0)
    ensures var t, u := Run(s, actions), Run(s, more); u.v == t.v.(transferring := false, transfer := Check) && u.n == t.n
  {
    more := Then(s, actions, Receiver);
    if Run(s, more).v.transfer.Test? { more := Then(s, more, Receiver); }
    more := Then(s, more, Receiver);
  }

  /** A cancel request finds it running, and is stored or about to be. */
  lemma ThenCancel(s: State, actions: seq<Action>) returns (more: seq<Action>)
    requires Run(s, actions).v.ep0.Waiting? && Run(s, actions).v.transferring
    ensures var t, u := Run(s, actions), Run(s, more); u.v == t.v.(ep0 := CancelSet) && u.n == t.n
  {
    more := Then(s, actions, Cancel);
    more := Then(s, more, Ep0);
  }

  /** A status request that finds a cancel is answered BUSY, up to its store. */
  lemma ThenBusy(s: State, actions: seq<Action>) returns (more: seq<Action>)
    requires Run(s, actions).v.ep0.Waiting? && Run(s, actions).v.cancelReq == 2
    ensures var t, u := Run(s, actions), Run(s, more); u.v == t.v.(ep0 := BusySet) && u.n == t.n
  {
    more := Then(s, actions, Status);
    more := Then(s, more, Ep0);
    more := Then(s, more, Ep0);
  }

  /** One that finds no transfer and no fresh cancel resets cancel_req. */
  lemma ThenReset(s: State, actions: seq<Action>) returns (more: seq<Action>)
    requires var v := Run(s, actions).v; v.ep0.Waiting? && v.cancelReq != 2 && !v.transferring
    ensures var t, u := Run(s, actions), Run(s, more); u.v == t.v.(cancelReq := 0) && u.n == Reset(t.v, t.n)
  {
    more := Then(s, actions, Status);
    more := Then(s, more, Ep0);
    more := Then(s, more, Ep0);
    more := Then(s, more, Ep0);
  }

  /** The reset in the gap: a status request answered there makes a cancelled transfer end with OK. */
  lemma CancelledAnsweredOk(s: State) returns (actions: seq<Action>)
    requires Initial(s)
    ensures Run(s, actions).n.hit && Run(s, actions).n.reply == Ok
  {
    actions := ThenUpload(s, [], true);
    actions := ThenCancel(s, actions);
    actions := Then(s, actions, Ep0);
    actions := ThenBusy(s, actions);
    actions := Then(s, actions, Ep0);
    actions := ThenEnd(s, actions);
    actions := ThenReset(s, actions);
    actions := Then(s, actions, Receiver);
  }

  /** The value left over: a cancel that found one transfer running but is stored after its end cuts the
      next one short, although nothing was stored during that one. */
  lemma StaleCancelStopsNext(s: State) returns (actions: seq<Action>)
    requires Initial(s)
    ensures var n := Run(s, actions).n; n.leftover && !n.hit && !n.late && n.packets == 1 && n.reply == Silent
  {
    actions := ThenUpload(s, [], false);
    actions := ThenCancel(s, actions);
    actions := ThenEnd(s, actions);
    actions := Then(s, actions, Receiver);
    actions := Then(s, actions, Ep0);
    actions := ThenUpload(s, actions, true);
    actions := ThenEnd(s, actions);
    actions := Then(s, actions, Receiver);
  }

  /** The store that is no cancel: a BUSY answer begun in one transfer stops the next. */
  lemma StaleBusyStopsNext(s: State) returns (actions: seq<Action>)
    requires Initial(s)
    ensures var n := Run(s, actions).n; n.hit && !n.leftover && n.packets == 1 && n.reply == Silent
  {
    actions := ThenUpload(s, [], false);
    actions := ThenCancel(s, actions);
    actions := Then(s, actions, Ep0);
    actions := ThenBusy(s, actions);
    actions := ThenEnd(s, actions);
    actions := Then(s, actions, Receiver);
    actions := Then(s, actions, Receiver);
    actions := ThenUpload(s, actions, true);
    actions := Then(s, actions, Ep0);
    actions := ThenEnd(s, actions);
    actions := Then(s, actions, Receiver);
  }

  /** The store in the gap: a cancel stored there silences a transfer that had come to its end. */
  lemma LateCancelSilences(s: State) returns (actions: seq<Action>)
    requires Initial(s)
    ensures var n := Run(s, actions).n; n.late && !n.hit && !n.leftover && n.reply == Silent
  {
    actions := ThenUpload(s, [], false);
    actions := ThenCancel(s, actions);
    actions := ThenEnd(s, actions);
    actions := Then(s, actions, Ep0);
    actions := Then(s, actions, Receiver);
  }

  // ---------- status requests after the transfer ----------

  /** No transfer starts and no cancel arrives. */
  predicate Quiet(actions: seq<Action>) {
    forall i :: 0 <= i < |actions| ==> !actions[i].Begin? && !actions[i].Cancel? && !actions[i].Suspend?
  }

  predicate Trailing(t: Transfer) { t.Idle? || t.Check? || t.Clear? }

  /** What holds when `polls` requests have been answered since the transfer ended. */
  predicate Settling(v: Shared, polls: int, busies: int) {
    && !v.transferring && Trailing(v.transfer) && 0 <= v.cancelReq <= 2 && 0 <= polls && 0 <= busies <= 1
    && (v.ep0.Waiting? || v.ep0.StatusRead? || v.ep0.StatusTest? || v.ep0.StatusReset?
        || (polls == 0 && (v.ep0.BusyTest? || v.ep0.BusySet?)))
    && (polls == 0 ==> busies == 0)
    && (v.ep0.StatusTest? || v.ep0.StatusReset? || polls == 1 ==> v.cancelReq != 2)
    && (polls >= 2 ==> v.cancelReq == 0)
  }

  /** A cancel answered meanwhile, between the two reads of a status request, is still answered BUSY. */
  lemma OvertakenStatus(s: State)
    requires s.v.ep0.BusyTest? && s.v.cancelReq != 2
    ensures Step(s, Ep0).v == s.v.(ep0 := Waiting) && Step(s, Ep0).q == Answers(s.q.polls + 1, s.q.busies + 1)
  {
  }

  lemma SettlingStep(s: State, a: Action, polls: nat, busies: nat)
    requires polls <= s.q.polls && busies <= s.q.busies && Settling(s.v, s.q.polls - polls, s.q.busies - busies)
    requires !a.Begin? && !a.Cancel? && !a.Suspend?
    ensures var t := Step(s, a);
            polls <= t.q.polls && busies <= t.q.busies && Settling(t.v, t.q.polls - polls, t.q.busies - busies)
  {
  }

  /** After a transfer, with no new cancel, two answered status requests leave cancel_req 0, and at most
      one of all the answers is BUSY, however the receiving thread's last steps fall between them. */
  lemma {:induction false} TwoPollsSettle(s: State, actions: seq<Action>)
    requires Invariant(s) && !s.v.transferring && s.v.ep0.Waiting? && Quiet(actions)
    ensures var t := Run(s, actions);
      && s.q.polls <= t.q.polls && s.q.busies <= t.q.busies <= s.q.busies + 1
      && (t.q.polls >= s.q.polls + 2 ==> t.v.cancelReq == 0)
      && Settling(t.v, t.q.polls - s.q.polls, t.q.busies - s.q.busies)
  {
    if actions != [] {
      var k := |actions| - 1;
      TwoPollsSettle(s, actions[..k]);
      SettlingStep(Run(s, actions[..k]), actions[k], s.q.polls, s.q.busies);
    }
  }

  predicate Calm(s: State) {
    && s.v.cancelReq == 0 && !s.n.hit && !s.n.leftover && !s.n.late && s.n.reply != Silent && !s.v.transfer.Clear?
    && (s.v.ep0.Waiting? || s.v.ep0.StatusRead? || s.v.ep0.StatusTest? || s.v.ep0.StatusReset?)
  }

  /** So a host that starts a transfer after that, and sends no cancel during it, is always answered, and then
      the whole file has been taken. */
  lemma {:induction false} UndisturbedAnswered(s: State, actions: seq<Action>)
    requires s.v.transfer.Idle? && s.v.cancelReq == 0 && s.v.ep0.Waiting? && Quiet(actions)
    ensures var t := Run(Step(s, Begin), actions);
      && Calm(t) && Takes(t.v, t.n)
      && (HasLeft(t.v, t.n) ==> t.n.ended && t.n.packets == t.n.arrived)
  {
    if actions != [] {
      var k := |actions| - 1;
      UndisturbedAnswered(s, actions[..k]);
      CalmStep(Run(Step(s, Begin), actions[..k]), actions[k]);
    }
  }

  lemma CalmStep(s: State, a: Action)
    requires Calm(s) && Takes(s.v, s.n) && (HasLeft(s.v, s.n) ==> !s.v.transfer.Write?)
    requires !a.Begin? && !a.Cancel? && !a.Suspend?
    ensures var t := Step(s, a); Calm(t) && Takes(t.v, t.n) && (HasLeft(t.v, t.n) ==> !t.v.transfer.Write?)
  {
  }
}

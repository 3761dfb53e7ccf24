/** Threaded video: the core thread publishes frames, the main thread presents them, and a mutex, one
    condition variable and a ready flag lie between them. Each action is one step of one thread. */
module VideoHandshake {

  /** Where a pixel came from; garbage belongs to no frame. */
  datatype Cell = Garbage | Cell(frame: int, at: nat)

  datatype Buffer = NoBuffer | Buffer(pixels: seq<Cell>)

  /** The renderer's pointer: into which backbuffer, and of what size. */
  datatype Source = NoSource | Source(gen: nat, size: nat)

  datatype Holder = NoOne | MainHolds | CoreHolds

  datatype Core =
    | Top | WantRun | HoldRun                     // coreThread's loop
    | Running                                     // inside core.run, without the mutex
    | WantQuit | HoldQuit                         // the save-and-quit shortcut
    | WantPause | HoldPause                       // the menu button
    | WantFrame | HoldFrame | Copy(done: nat) | Signal   // video_refresh_callback
    | Unlock | Exited

  datatype Main =
    | Loop | Start | Want | TestReady | TestQuit | GoSleep | Asleep | Woken
    | Take | Show(drawn: nat) | Release | After
    | Menu | Republish | Refit | Recopy(copied: nat) | Reunlock    // the menu, and its own call of the callback
    | WantResume | HoldResume | Tail | Done

  /** Who is where, who holds core_mx, and the two flags the main thread waits on. */
  datatype Control = Control(core: Core, main: Main, holder: Holder, quit: bool, ready: bool)

  /** The menu's flags, and three notes about the past: the menu was asked for in this run and no frame
      has followed yet; some run asked and ended without a frame; some pause was stored after the menu
      it belongs to had already been left. */
  datatype Flags = Flags(showMenu: bool, shouldRun: bool, asked: bool, silent: bool, late: bool)

  /** The backbuffer, counted by allocations; the renderer's pointer; whether the menu has filled the buffer
      from a backbuffer that no longer exists; the size of every frame produced; and the last one
      published, -1 before the first. */
  datatype Picture = Picture(buffer: Buffer, gen: nat, source: Source, spoiled: bool, sizes: seq<nat>, latest: int)

  /** Who has set the ready flag. */
  datatype Cause = Cause(core: bool, menu: bool)

  /** One presentation: what was drawn, the frame it was taken for, and why it was taken. */
  datatype Shown = Shown(image: seq<Cell>, id: int, spoiled: bool, cause: Cause)

  datatype Screen = Screen(cause: Cause, taken: Cause, image: seq<Cell>, shown: seq<Shown>)

  datatype State = State(c: Control, f: Flags, p: Picture, x: Screen)

  datatype Action = ByCore(c: CoreAction) | ByMain(m: MainAction)

  datatype CoreAction =
    | CoreTop | CoreLock | CoreReadRun | CoreEnd | CoreQuit | CoreBroadcast | CoreMenu | CorePause
    | CoreFrame(size: nat) | CoreResize | CoreCopy | CoreFlag | CoreSignal | CoreUnlock

  datatype MainAction =
    | MainLoop | MainStart | MainLock | MainTestReady | MainTestQuit | MainSleep | Spurious
    | MainTake | MainDraw | MainFlip | MainUnlock | MainAfter | MainMenu(leave: bool)
    | MainRefit | MainRecopy | MainReflag | MainResume | MainTail(hdmi: bool)

  const NOBODY: Cause := Cause(false, false)

  // ---------- the core thread ----------

  predicate CoreCan(s: State, a: CoreAction) {
    var core := s.c.core;
    match a
    case CoreTop => core.Top?
    case CoreLock => s.c.holder.NoOne? && (core.WantRun? || core.WantQuit? || core.WantPause? || core.WantFrame?)
    case CoreReadRun => core.HoldRun?
    case CoreEnd => core.Running?
    case CoreQuit => core.Running?
    case CoreBroadcast => core.HoldQuit?
    case CoreMenu => core.Running?
    case CorePause => core.HoldPause?
    case CoreFrame(_) => core.Running?
    case CoreResize => core.HoldFrame?
    case CoreCopy => core.Copy? && core.done < Size(s.p.buffer)
    case CoreFlag => core.Copy? && core.done >= Size(s.p.buffer)
    case CoreSignal => core.Signal?
    case CoreUnlock => core.Unlock?
  }

  function Size(b: Buffer): nat { if b.Buffer? then |b.pixels| else 0 }

  function Locked(core: Core): Core {
    match core
    case WantRun => HoldRun
    case WantQuit => HoldQuit
    case WantPause => HoldPause
    case _ => HoldFrame
  }

  function Wake(m: Main): Main { if m.Asleep? then Woken else m }

  function CoreControl(c: Control, a: CoreAction, shouldRun: bool): Control {
    match a
    case CoreTop => c.(core := if c.quit then Exited else WantRun)
    case CoreLock => c.(core := Locked(c.core), holder := CoreHolds)
    case CoreReadRun => c.(core := if shouldRun then Running else Top, holder := NoOne)
    case CoreEnd => c.(core := Top)
    case CoreQuit => c.(core := WantQuit, quit := true)
    case CoreBroadcast => c.(core := Unlock, main := Wake(c.main))
    case CoreMenu => c.(core := WantPause)
    case CorePause => c.(core := Unlock)
    case CoreFrame(_) => c.(core := WantFrame)
    case CoreResize => c.(core := Copy(0))
    case CoreCopy => c.(core := if c.core.Copy? then Copy(c.core.done + 1) else c.core)
    case CoreFlag => c.(core := Signal, ready := true)
    case CoreSignal => c.(core := Unlock, main := Wake(c.main))
    case CoreUnlock => c.(core := Running, holder := NoOne)
  }

  function CoreFlags(f: Flags, a: CoreAction): Flags {
    match a
    case CoreEnd => f.(silent := f.silent || f.asked, asked := false)
    case CoreMenu => f.(showMenu := true, asked := true)
    case CorePause => f.(shouldRun := false, late := f.late || !f.showMenu)
    case CoreFlag => f.(asked := false)
    case _ => f
  }

  function CorePicture(p: Picture, a: CoreAction, core: Core): Picture {
    match a
    case CoreFrame(size) => p.(sizes := p.sizes + [size])
    case CoreResize => Fit(p, if |p.sizes| > 0 then p.sizes[|p.sizes| - 1] else 0)
    case CoreCopy =>
      if core.Copy? && core.done < Size(p.buffer)
      then p.(buffer := Buffer(p.buffer.pixels[core.done := Cell(|p.sizes| - 1, core.done)])) else p
    case CoreFlag => p.(latest := |p.sizes| - 1, spoiled := false)
    case _ => p
  }

  /** The backbuffer is replaced when its dimensions differ. */
  function Fit(p: Picture, size: nat): Picture {
    if p.buffer.Buffer? && |p.buffer.pixels| == size then p else p.(buffer := Buffer(Blank(size)), gen := p.gen + 1)
  }

  function Blank(size: nat): (cells: seq<Cell>)
    ensures |cells| == size
  {
    if size == 0 then [] else Blank(size - 1) + [Garbage]
  }

  function CoreScreen(x: Screen, a: CoreAction): Screen {
    if a.CoreFlag? then x.(cause := x.cause.(core := true)) else x
  }

  // ---------- the main thread ----------

  predicate MainCan(s: State, a: MainAction) {
    var main := s.c.main;
    match a
    case MainLoop => main.Loop?
    case MainStart => main.Start?
    case MainLock => s.c.holder.NoOne? && (main.Want? || main.Woken? || main.Republish? || main.WantResume?)
    case MainTestReady => main.TestReady?
    case MainTestQuit => main.TestQuit?
    case MainSleep => main.GoSleep?
    case Spurious => main.Asleep?
    case MainTake => main.Take?
    case MainDraw => main.Show? && main.drawn < Size(s.p.buffer)
    case MainFlip => main.Show? && main.drawn >= Size(s.p.buffer)
    case MainUnlock => main.Release? || main.Reunlock?
    case MainAfter => main.After?
    case MainMenu(_) => main.Menu?
    case MainRefit => main.Refit?
    case MainRecopy => main.Recopy? && main.copied < Size(s.p.buffer)
    case MainReflag => main.Recopy? && main.copied >= Size(s.p.buffer)
    case MainResume => main.HoldResume?
    case MainTail(_) => main.Tail?
  }

  function Entered(m: Main): Main { if m.Republish? then Refit else if m.WantResume? then HoldResume else TestReady }

  /** Leaving the menu publishes the renderer's last picture again, if there is one, and resumes the core. */
  function Left(quit: bool, source: Source): Main {
    if quit then Tail else if source.Source? then Republish else WantResume
  }

  function MainControl(c: Control, a: MainAction, showMenu: bool, p: Picture): Control {
    match a
    case MainLoop => c.(main := if c.quit then Done else Start)
    case MainStart => c.(main := if c.quit then After else Want)
    case MainLock => c.(main := Entered(c.main), holder := MainHolds)
    case MainTestReady => c.(main := if c.ready then Take else TestQuit)
    case MainTestQuit => c.(main := if c.quit then Take else GoSleep)
    case MainSleep => c.(main := Asleep, holder := NoOne)
    case Spurious => c.(main := Woken)
    case MainTake => c.(main := if p.buffer.Buffer? then Show(0) else Release, ready := false)
    case MainDraw => c.(main := if c.main.Show? then Show(c.main.drawn + 1) else c.main)
    case MainFlip => c.(main := Release)
    case MainUnlock => c.(main := if c.main.Release? then After else WantResume, holder := NoOne)
    case MainAfter => c.(main := if showMenu then Menu else Tail)
    case MainMenu(leave) => c.(main := Left(leave || c.quit, p.source), quit := c.quit || leave)
    case MainRefit => c.(main := Recopy(0))
    case MainRecopy => c.(main := if c.main.Recopy? then Recopy(c.main.copied + 1) else c.main)
    case MainReflag => c.(main := Reunlock, ready := true)
    case MainResume => c.(main := Tail, holder := NoOne)
    case MainTail(hdmi) => c.(main := Loop, quit := c.quit || hdmi)
  }

  function MainFlags(f: Flags, a: MainAction): Flags {
    match a
    case MainMenu(_) => f.(showMenu := false)
    case MainResume => f.(shouldRun := true)
    case MainTail(hdmi) => f.(showMenu := f.showMenu && !hdmi)
    case _ => f
  }

  /** Copying from the backbuffer onto itself changes nothing; copying from one that is gone gives garbage. */
  function MainPicture(p: Picture, a: MainAction, main: Main): Picture {
    match a
    case MainTake => if p.buffer.Buffer? then p.(source := Source(p.gen, |p.buffer.pixels|)) else p
    case MainRefit => if p.source.Source? then Fit(p, p.source.size) else p
    case MainRecopy =>
      if main.Recopy? && main.copied < Size(p.buffer) && Gone(p)
      then p.(buffer := Buffer(p.buffer.pixels[main.copied := Garbage])) else p
    case MainReflag => p.(spoiled := p.spoiled || Gone(p))
    case _ => p
  }

  /** The renderer's pointer is into a backbuffer that has been replaced. */
  predicate Gone(p: Picture) { p.source.Source? && p.source.gen != p.gen }

  function MainScreen(x: Screen, a: MainAction, main: Main, p: Picture): Screen {
    match a
    case MainTake => x.(taken := x.cause, cause := NOBODY, image := [])
    case MainDraw => if main.Show? && main.drawn < Size(p.buffer) then x.(image := x.image + [p.buffer.pixels[main.drawn]]) else x
    case MainFlip => x.(shown := x.shown + [Shown(x.image, p.latest, p.spoiled, x.taken)])
    case MainReflag => x.(cause := x.cause.(menu := true))
    case _ => x
  }

  /** One step; an action that is not possible in `s` changes nothing. */
  function Step(s: State, a: Action): State {
    match a
    case ByCore(b) => if CoreCan(s, b) then CoreStep(s, b) else s
    case ByMain(b) => if MainCan(s, b) then MainStep(s, b) else s
  }

  function CoreStep(s: State, a: CoreAction): State {
    State(CoreControl(s.c, a, s.f.shouldRun), CoreFlags(s.f, a), CorePicture(s.p, a, s.c.core), CoreScreen(s.x, a))
  }

  function MainStep(s: State, a: MainAction): State {
    State(MainControl(s.c, a, s.f.showMenu, s.p), MainFlags(s.f, a), MainPicture(s.p, a, s.c.main),
          MainScreen(s.x, a, s.c.main, s.p))
  }

  function Run(s: State, actions: seq<Action>): State {
    if actions == [] then s else Step(Run(s, actions[..|actions| - 1]), actions[|actions| - 1])
  }

  // ---------- the invariant ----------

  predicate WholeFrame(pixels: seq<Cell>, frame: int, sizes: seq<nat>) {
    && 0 <= frame < |sizes| && |pixels| == sizes[frame]
    && (forall j :: 0 <= j < |pixels| ==> pixels[j] == Cell(frame, j))
  }

  predicate AllGarbage(pixels: seq<Cell>, n: nat) { n <= |pixels| && forall j :: 0 <= j < n ==> pixels[j] == Garbage }

  predicate CoreInside(c: Core) {
    c.HoldRun? || c.HoldQuit? || c.HoldPause? || c.HoldFrame? || c.Copy? || c.Signal? || c.Unlock?
  }

  predicate MainInside(m: Main) {
    || m.TestReady? || m.TestQuit? || m.GoSleep? || m.Take? || m.Show? || m.Release?
    || m.Refit? || m.Recopy? || m.Reunlock? || m.HoldResume?
  }

  predicate Exclusive(c: Control) {
    && (CoreInside(c.core) <==> c.holder == CoreHolds)
    && (MainInside(c.main) <==> c.holder == MainHolds)
  }

  /** Nobody sleeps through a frame or the quit broadcast: whoever set the flag has yet to wake the sleeper. */
  predicate NoLostWakeup(c: Control) {
    && (c.main.Asleep? && c.ready ==> c.core.Signal?)
    && (c.main.Asleep? && c.quit ==> c.core.WantQuit? || c.core.HoldQuit?)
    && (c.main.TestQuit? || c.main.GoSleep? || c.main.Show? ==> !c.ready)
    && (c.main.GoSleep? && c.quit ==> c.core.WantQuit?)
    && (c.main.Take? ==> c.ready || c.quit) && (c.main.Done? ==> c.quit)
  }

  predicate InMenu(m: Main) {
    m.Menu? || m.Republish? || m.Refit? || m.Recopy? || m.Reunlock? || m.WantResume? || m.HoldResume?
  }

  /** A paused core is always about to be resumed, or a frame is on its way that makes the main thread look. */
  predicate PauseOk(c: Control, f: Flags) {
    && (c.core.Top? || c.core.WantRun? || c.core.HoldRun? || c.core.Exited? ==> !f.asked)
    && (c.core.WantPause? || c.core.HoldPause? ==> f.asked)
    && (!f.shouldRun && !f.late && !f.silent && !c.quit ==>
          || InMenu(c.main)
          || (f.showMenu && (f.asked || c.ready || c.main.Show? || c.main.Release? || c.main.After?)))
  }

  predicate Unpublished(core: Core) { core.WantFrame? || core.HoldFrame? || core.Copy? }

  /** Outside the two copying loops the backbuffer is the latest frame, or garbage if the menu spoiled it. */
  predicate BufferOk(p: Picture, core: Core, main: Main) {
    && -1 <= p.latest < |p.sizes| && (Unpublished(core) ==> p.latest < |p.sizes| - 1)
    && (if core.Copy? then Copied(p, core.done) else if main.Recopy? then Recopied(p, main.copied) else Kept(p))
  }

  predicate Kept(p: Picture) {
    if p.spoiled then p.buffer.Buffer? && AllGarbage(p.buffer.pixels, |p.buffer.pixels|)
    else if p.latest < 0 then p.buffer == NoBuffer
    else p.buffer.Buffer? && WholeFrame(p.buffer.pixels, p.latest, p.sizes)
  }

  predicate Copied(p: Picture, done: nat) {
    && p.sizes != [] && p.buffer.Buffer? && done <= |p.buffer.pixels| == p.sizes[|p.sizes| - 1]
    && (forall j :: 0 <= j < done ==> p.buffer.pixels[j] == Cell(|p.sizes| - 1, j))
  }

  predicate Recopied(p: Picture, copied: nat) {
    p.source.Source? && p.buffer.Buffer? && if Gone(p) then AllGarbage(p.buffer.pixels, copied) else Kept(p)
  }

  predicate SourceOk(p: Picture, main: Main) {
    && (p.source.Source? ==> p.source.gen <= p.gen)
    && (p.source.Source? && p.source.gen == p.gen ==> p.buffer.Buffer? && |p.buffer.pixels| == p.source.size)
    && (main.Republish? || main.Refit? || main.Recopy? ==> p.source.Source?)
  }

  predicate ShowOk(p: Picture, main: Main, x: Screen) {
    main.Show? ==> p.buffer.Buffer? && main.drawn <= |p.buffer.pixels| && x.image == p.buffer.pixels[..main.drawn]
  }

  /** What was presented was a whole frame, or nothing but garbage. */
  predicate ImageOk(s: Shown, sizes: seq<nat>) {
    if s.spoiled then AllGarbage(s.image, |s.image|) else WholeFrame(s.image, s.id, sizes)
  }

  predicate AllShown(p: Picture, x: Screen) {
    forall i :: 0 <= i < |x.shown| ==> ImageOk(x.shown[i], p.sizes)
  }

  predicate CauseOk(c: Control, x: Screen) {
    && (c.ready <==> x.cause != NOBODY)
    && (c.main.Show? && x.taken == NOBODY ==> c.quit)
  }

  /** The main thread has presented for the last time. */
  predicate Leaving(c: Control) {
    && c.quit
    && (c.main.Release? || c.main.After? || InMenu(c.main) || c.main.Tail? || c.main.Loop? || c.main.Done?)
  }

  /** The core has published since the last presentation. */
  predicate News(main: Main, x: Screen) { x.cause.core || (main.Show? && x.taken.core) }

  predicate OrderOk(p: Picture, c: Control, x: Screen) {
    && (x.cause.core ==> p.latest >= 0) && (forall i :: 0 <= i < |x.shown| ==> x.shown[i].id <= p.latest)
    && (News(c.main, x) ==> forall i :: 0 <= i < |x.shown| ==> x.shown[i].id < p.latest)
    && (!News(c.main, x) && x.shown != [] ==> x.shown[|x.shown| - 1].id == p.latest)
    && Chain(x.shown)
    && (forall i :: 0 <= i < |x.shown| && x.shown[i].cause == NOBODY ==> i == |x.shown| - 1 && Leaving(c))
  }

  /** A presentation is of a newer frame exactly when the core had published one. */
  predicate Chain(shown: seq<Shown>) { forall i :: 0 < i < |shown| ==> Follows(shown[i - 1], shown[i]) }

  predicate Follows(a: Shown, b: Shown) { if b.cause.core then a.id < b.id else a.id == b.id }

  predicate Invariant(s: State) {
    && Exclusive(s.c) && NoLostWakeup(s.c) && PauseOk(s.c, s.f)
    && BufferOk(s.p, s.c.core, s.c.main) && SourceOk(s.p, s.c.main)
    && ShowOk(s.p, s.c.main, s.x) && AllShown(s.p, s.x) && CauseOk(s.c, s.x) && OrderOk(s.p, s.c, s.x)
  }

  /** A threaded session starts with the ready flag clear, and perhaps a frame left over from earlier. */
  predicate Initial(s: State) {
    && s.c == Control(Top, Loop, NoOne, false, false) && s.f == Flags(false, true, false, false, false)
    && s.x.shown == [] && s.x.cause == NOBODY && s.p.source == NoSource && !s.p.spoiled
    && -1 <= s.p.latest && |s.p.sizes| == s.p.latest + 1 && Kept(s.p)
  }

  lemma CoreKeepsControl(s: State, a: CoreAction)
    requires Exclusive(s.c) && NoLostWakeup(s.c) && CoreCan(s, a)
    ensures Exclusive(CoreStep(s, a).c) && NoLostWakeup(CoreStep(s, a).c)
  {
  }

  lemma MainKeepsControl(s: State, a: MainAction)
    requires Exclusive(s.c) && NoLostWakeup(s.c) && MainCan(s, a)
    ensures Exclusive(MainStep(s, a).c) && NoLostWakeup(MainStep(s, a).c)
  {
  }

  lemma CoreKeepsPause(s: State, a: CoreAction)
    requires Exclusive(s.c) && PauseOk(s.c, s.f) && CoreCan(s, a)
    ensures PauseOk(CoreStep(s, a).c, CoreStep(s, a).f)
  {
  }

  lemma MainKeepsPause(s: State, a: MainAction)
    requires Exclusive(s.c) && NoLostWakeup(s.c) && PauseOk(s.c, s.f) && MainCan(s, a)
    ensures PauseOk(MainStep(s, a).c, MainStep(s, a).f)
  {
  }

  lemma CoreKeepsBuffer(s: State, a: CoreAction)
    requires Exclusive(s.c) && BufferOk(s.p, s.c.core, s.c.main) && SourceOk(s.p, s.c.main) && CoreCan(s, a)
    ensures var t := CoreStep(s, a); BufferOk(t.p, t.c.core, t.c.main) && SourceOk(t.p, t.c.main)
  {
  }

  lemma MainKeepsBuffer(s: State, a: MainAction)
    requires Exclusive(s.c) && BufferOk(s.p, s.c.core, s.c.main) && SourceOk(s.p, s.c.main) && MainCan(s, a)
    ensures var t := MainStep(s, a); BufferOk(t.p, t.c.core, t.c.main) && SourceOk(t.p, t.c.main)
  {
  }

  lemma CoreKeepsScreen(s: State, a: CoreAction)
    requires Invariant(s) && CoreCan(s, a)
    ensures var t := CoreStep(s, a);
      ShowOk(t.p, t.c.main, t.x) && AllShown(t.p, t.x) && CauseOk(t.c, t.x) && OrderOk(t.p, t.c, t.x)
  {
  }

  lemma MainKeepsImages(s: State, a: MainAction)
    requires Invariant(s) && MainCan(s, a)
    ensures var t := MainStep(s, a); ShowOk(t.p, t.c.main, t.x) && AllShown(t.p, t.x) && CauseOk(t.c, t.x)
  {
    if a.MainFlip? { FlipKeeps(s.p, s.c, s.x); }
  }

  lemma MainKeepsOrder(s: State, a: MainAction)
    requires Invariant(s) && MainCan(s, a)
    ensures OrderOk(MainStep(s, a).p, MainStep(s, a).c, MainStep(s, a).x)
  {
    if a.MainFlip? { FlipKeeps(s.p, s.c, s.x); } else { MainKeepsNews(s, a); }
  }

  lemma MainKeepsNews(s: State, a: MainAction)
    requires Exclusive(s.c) && BufferOk(s.p, s.c.core, s.c.main) && MainCan(s, a) && !a.MainFlip?
    requires s.x.cause.core ==> s.p.latest >= 0
    ensures var t := MainStep(s, a);
      && t.x.shown == s.x.shown && t.p.latest == s.p.latest && (t.x.cause.core ==> s.x.cause.core)
      && (News(t.c.main, t.x) <==> News(s.c.main, s.x)) && (Leaving(s.c) ==> Leaving(t.c))
  {
  }

  /** Presenting: a newer frame if the core published one, otherwise the last one again. */
  lemma FlipKeeps(p: Picture, c: Control, x: Screen)
    requires Kept(p) && -1 <= p.latest < |p.sizes| && ShowOk(p, c.main, x) && AllShown(p, x) && CauseOk(c, x) && OrderOk(p, c, x)
    requires c.main.Show? && !c.ready && c.main.drawn >= Size(p.buffer)
    ensures var x' := x.(shown := x.shown + [Shown(x.image, p.latest, p.spoiled, x.taken)]);
            AllShown(p, x') && OrderOk(p, c.(main := Release), x')
  {
    var s := Shown(x.image, p.latest, p.spoiled, x.taken);
    var shown := x.shown + [s];
    assert x.image == p.buffer.pixels && ImageOk(s, p.sizes);
    forall i | 0 <= i < |shown| ensures ImageOk(shown[i], p.sizes) {
      if i < |x.shown| { assert ImageOk(x.shown[i], p.sizes); }
    }
    forall i | 0 < i < |shown| ensures Follows(shown[i - 1], shown[i]) {
      if i < |x.shown| { assert Follows(x.shown[i - 1], x.shown[i]); }
    }
    assert forall i :: 0 <= i < |x.shown| ==> shown[i] == x.shown[i] && x.shown[i].cause != NOBODY;
  }

  lemma StepKeeps(s: State, a: Action)
    requires Invariant(s)
    ensures Invariant(Step(s, a))
  {
    match a
    case ByCore(b) =>
      if CoreCan(s, b) { CoreKeepsControl(s, b); CoreKeepsPause(s, b); CoreKeepsBuffer(s, b); CoreKeepsScreen(s, b); }
    case ByMain(b) =>
      if MainCan(s, b) { MainKeepsControl(s, b); MainKeepsPause(s, b); MainKeepsBuffer(s, b); MainKeepsImages(s, b); MainKeepsOrder(s, b); }
  }

  lemma {:induction false} RunKeeps(s: State, actions: seq<Action>)
    requires Initial(s)
    ensures Invariant(Run(s, actions))
  {
    if actions != [] {
      var n := |actions| - 1;
      RunKeeps(s, actions[..n]);
      StepKeeps(Run(s, actions[..n]), actions[n]);
    }
  }

  // ---------- what it means over whole runs ----------

  /** Every presentation is of a whole frame, unless leaving a menu has spoiled it, and then it is garbage
      from end to end. It shows a newer frame than the one before exactly when the core had published
      one; otherwise it repeats that frame, which happens only after a menu or, as the very last
      presentation, when quitting. */
  lemma PresentedInOrder(s: State, actions: seq<Action>, i: nat)
    requires Initial(s) && i < |Run(s, actions).x.shown|
    ensures var t := Run(s, actions); var shown := t.x.shown;
      && ImageOk(shown[i], t.p.sizes)
      && (i > 0 ==> shown[i - 1].id <= shown[i].id && (shown[i - 1].id < shown[i].id <==> shown[i].cause.core))
      && (!shown[i].cause.core ==> shown[i].cause.menu || (t.c.quit && i == |shown| - 1))
  {
    RunKeeps(s, actions);
    if i > 0 { assert Follows(Run(s, actions).x.shown[i - 1], Run(s, actions).x.shown[i]); }
  }

  lemma {:induction false} NeverOlder(s: State, actions: seq<Action>, i: nat, j: nat)
    requires Initial(s) && i <= j < |Run(s, actions).x.shown|
    ensures Run(s, actions).x.shown[i].id <= Run(s, actions).x.shown[j].id
  {
    if i < j {
      NeverOlder(s, actions, i, j - 1);
      PresentedInOrder(s, actions, j);
    }
  }

  /** A sleeping main thread with something to do is woken by the core's next steps, whatever else happens. */
  lemma SleeperIsWoken(s: State, actions: seq<Action>)
    requires Initial(s)
    ensures WakesNext(Run(s, actions))
  {
    RunKeeps(s, actions);
    SleeperStep(Run(s, actions));
  }

  predicate WakesNext(t: State) {
    && (t.c.main.Asleep? && t.c.ready ==> Step(t, ByCore(CoreSignal)).c.main == Woken)
    && (t.c.main.Asleep? && t.c.quit ==>
          if t.c.core.HoldQuit? then Step(t, ByCore(CoreBroadcast)).c.main == Woken
          else Step(t, ByCore(CoreLock)).c == t.c.(core := HoldQuit, holder := CoreHolds))
  }

  lemma SleeperStep(t: State)
    requires Exclusive(t.c) && NoLostWakeup(t.c)
    ensures WakesNext(t)
  {
  }

  // ---------- the picture the menu publishes ----------

  /** Everything has size `z`. */
  predicate Uniform(s: State, z: nat) {
    && !s.p.spoiled && (s.p.buffer.Buffer? ==> |s.p.buffer.pixels| == z)
    && (forall i :: 0 <= i < |s.p.sizes| ==> s.p.sizes[i] == z) && (Unpublished(s.c.core) ==> s.p.sizes != [])
    && (s.p.source.Source? ==> s.p.source.size == z && s.p.source.gen == s.p.gen && s.p.buffer.Buffer?)
    && (forall i :: 0 <= i < |s.x.shown| ==> !s.x.shown[i].spoiled)
  }

  predicate SizeIs(a: Action, z: nat) { a.ByCore? && a.c.CoreFrame? ==> a.c.size == z }

  lemma UniformStep(s: State, a: Action, z: nat)
    requires Uniform(s, z) && SizeIs(a, z)
    ensures Uniform(Step(s, a), z)
  {
  }

  /** While the core keeps to one frame size, nothing is ever spoiled. */
  lemma {:induction false} UniformNeverSpoiled(s: State, actions: seq<Action>, z: nat)
    requires Initial(s) && Uniform(s, z) && forall i :: 0 <= i < |actions| ==> SizeIs(actions[i], z)
    ensures Uniform(Run(s, actions), z)
  {
    if actions != [] {
      var n := |actions| - 1;
      UniformNeverSpoiled(s, actions[..n], z);
      UniformStep(Run(s, actions[..n]), actions[n], z);
    }
  }

  /** At `k` the menu publishes from a backbuffer that is gone. */
  ghost predicate SpoilsAt(s: State, actions: seq<Action>, k: nat) {
    && k < |actions| && actions[k] == ByMain(MainReflag)
    && MainCan(Run(s, actions[..k]), MainReflag) && Gone(Run(s, actions[..k]).p)
  }

  /** At `j` the core publishes a frame. */
  ghost predicate PublishesAt(s: State, actions: seq<Action>, j: nat) {
    j < |actions| && actions[j] == ByCore(CoreFlag) && CoreCan(Run(s, actions[..j]), CoreFlag)
  }

  /** Some publication of the menu was from a backbuffer that is gone, and the core has published nothing since. */
  ghost predicate SpoiledBy(s: State, actions: seq<Action>) { exists k: nat :: StaysSpoiled(s, actions, k) }

  ghost predicate StaysSpoiled(s: State, actions: seq<Action>, k: nat) {
    SpoilsAt(s, actions, k) && forall j: nat :: k < j < |actions| ==> !PublishesAt(s, actions, j)
  }

  /** In every run the picture is spoiled exactly then. */
  lemma {:induction false} SpoiledExactly(s: State, actions: seq<Action>)
    requires Initial(s)
    ensures Run(s, actions).p.spoiled <==> SpoiledBy(s, actions)
  {
    if actions != [] {
      var n := |actions| - 1;
      SpoiledExactly(s, actions[..n]);
      SpoiledStep(Run(s, actions[..n]), actions[n]);
      SpoiledMore(s, actions);
    }
  }

  /** One more action: it spoils, or it is no publication of the core and the picture was spoiled before. */
  lemma SpoiledMore(s: State, actions: seq<Action>)
    requires actions != []
    ensures var n := |actions| - 1;
      SpoiledBy(s, actions) <==> SpoilsAt(s, actions, n) || (SpoiledBy(s, actions[..n]) && !PublishesAt(s, actions, n))
  {
    var n := |actions| - 1;
    forall k: nat | k < n ensures SpoilsAt(s, actions, k) <==> SpoilsAt(s, actions[..n], k) { assert actions[..k] == actions[..n][..k]; }
    forall k: nat | k < n ensures PublishesAt(s, actions, k) <==> PublishesAt(s, actions[..n], k) { assert actions[..k] == actions[..n][..k]; }
    if SpoiledBy(s, actions) {
      var k: nat :| StaysSpoiled(s, actions, k);
      if k < n { assert StaysSpoiled(s, actions[..n], k) && !PublishesAt(s, actions, n); }
    }
    if SpoilsAt(s, actions, n) { assert StaysSpoiled(s, actions, n); }
    if SpoiledBy(s, actions[..n]) && !PublishesAt(s, actions, n) {
      var k: nat :| StaysSpoiled(s, actions[..n], k);
      assert StaysSpoiled(s, actions, k);
    }
  }

  lemma SpoiledStep(s: State, a: Action)
    ensures Step(s, a).p.spoiled <==>
      || (a == ByMain(MainReflag) && MainCan(s, MainReflag) && Gone(s.p))
      || (s.p.spoiled && !(a == ByCore(CoreFlag) && CoreCan(s, CoreFlag)))
  {
  }

  /** Every presentation was drawn at some point of the run, and is garbage exactly if the picture was spoiled
      at that point. */
  lemma {:induction false} ShownSpoiledExactly(s: State, actions: seq<Action>, i: nat) returns (m: nat)
    requires Initial(s) && i < |Run(s, actions).x.shown|
    ensures m < |actions| && actions[m] == ByMain(MainFlip) && |Run(s, actions[..m]).x.shown| == i
    ensures Run(s, actions).x.shown[i].spoiled <==> SpoiledBy(s, actions[..m])
  {
    var n := |actions| - 1;
    var before := actions[..n];
    ShownStep(Run(s, before), actions[n]);
    if i < |Run(s, before).x.shown| {
      m := ShownSpoiledExactly(s, before, i);
      assert before[..m] == actions[..m];
    } else {
      m := n;
      SpoiledExactly(s, before);
    }
  }

  lemma ShownStep(s: State, a: Action)
    ensures var x, x' := s.x.shown, Step(s, a).x.shown;
      x' == x || (a == ByMain(MainFlip) && |x'| == |x| + 1 && x'[..|x|] == x && x'[|x|].spoiled == s.p.spoiled)
  {
  }

  // ---------- the pause ----------

  predicate CoreIdle(c: Core) { c.Top? || c.WantRun? || c.HoldRun? }

  /** The core is paused and has finished its run. */
  predicate Paused(s: State) { CoreIdle(s.c.core) && !s.f.shouldRun && !s.c.quit }

  /** The main thread is in the menu, or has a frame to present before it looks at the menu's flag. */
  predicate Looks(s: State) {
    || InMenu(s.c.main)
    || (s.f.showMenu && (s.c.ready || s.c.main.Take? || s.c.main.Show? || s.c.main.Release? || s.c.main.After?))
  }

  predicate Doomed(s: State) { Paused(s) && !Looks(s) }

  /** No HDMI cable is plugged in or out. */
  predicate NoHdmi(actions: seq<Action>) { forall i :: 0 <= i < |actions| ==> actions[i] != ByMain(MainTail(true)) }

  lemma DoomedStep(s: State, a: Action)
    requires Doomed(s) && a != ByMain(MainTail(true))
    ensures Doomed(Step(s, a))
  {
  }

  lemma {:induction false} DoomedStays(s: State, actions: seq<Action>)
    requires Doomed(s) && NoHdmi(actions)
    ensures Doomed(Run(s, actions))
  {
    if actions != [] {
      var n := |actions| - 1;
      DoomedStays(s, actions[..n]);
      DoomedStep(Run(s, actions[..n]), actions[n]);
    }
  }

  lemma {:induction false} RunCons(s: State, a: Action, actions: seq<Action>)
    ensures Run(s, [a] + actions) == Run(Step(s, a), actions)
  {
    if actions == [] {
      assert [a] + actions == [a] && [a][..0] == [];
    } else {
      var n := |actions| - 1;
      assert ([a] + actions)[..n + 1] == [a] + actions[..n];
      RunCons(s, a, actions[..n]);
    }
  }

  /** The main thread's next step, and how many are left to the menu. */
  function Towards(s: State): Action { ByMain(MainNext(s)) }

  function MainNext(s: State): MainAction {
    match s.c.main
    case Tail => MainTail(false)
    case Loop => MainLoop
    case Start => MainStart
    case TestReady => MainTestReady
    case TestQuit => MainTestQuit
    case GoSleep => MainSleep
    case Asleep => Spurious
    case Take => MainTake
    case Show(drawn) => if drawn < Size(s.p.buffer) then MainDraw else MainFlip
    case Release => MainUnlock
    case After => MainAfter
    case Menu => MainMenu(false)
    case Refit => MainRefit
    case Recopy(copied) => if copied < Size(s.p.buffer) then MainRecopy else MainReflag
    case Reunlock => MainUnlock
    case HoldResume => MainResume
    case _ => MainLock
  }

  function StepsLeft(s: State): nat {
    var n := Size(s.p.buffer);
    match s.c.main
    case Tail => n + 10
    case Loop => n + 9
    case Start => n + 8
    case Want => n + 7
    case Woken => n + 7
    case TestReady => n + 6
    case Take => n + 5
    case Show(drawn) => if drawn < n then n - drawn + 3 else 3
    case Release => 2
    case After => 1
    case _ => 0
  }

  lemma TowardsMenu(s: State)
    requires Exclusive(s.c) && NoLostWakeup(s.c) && Paused(s) && Looks(s) && !s.c.core.HoldRun? && !InMenu(s.c.main)
    ensures var t := Step(s, Towards(s)); Paused(t) && Looks(t) && !t.c.core.HoldRun? && StepsLeft(t) < StepsLeft(s)
  {
  }

  lemma {:induction false} MenuWithin(s: State) returns (actions: seq<Action>)
    requires Invariant(s) && Paused(s) && Looks(s) && !s.c.core.HoldRun?
    ensures NoHdmi(actions) && InMenu(Run(s, actions).c.main)
    decreases StepsLeft(s)
  {
    actions := [];
    if !InMenu(s.c.main) {
      TowardsMenu(s);
      StepKeeps(s, Towards(s));
      var rest := MenuWithin(Step(s, Towards(s)));
      RunCons(s, Towards(s), rest);
      actions := [Towards(s)] + rest;
    }
  }

  /** A paused core is resumed again, HDMI apart, exactly when the main thread is in the menu or has a frame
      to present before it looks at the menu's flag. Otherwise neither thread will ever do anything new. */
  lemma PauseEndsExactly(s: State, before: seq<Action>)
    requires Initial(s) && Paused(Run(s, before))
    ensures (exists actions :: NoHdmi(actions) && InMenu(Run(Run(s, before), actions).c.main)) <==> Looks(Run(s, before))
  {
    var t := Run(s, before);
    RunKeeps(s, before);
    if Looks(t) {
      var free := if t.c.core.HoldRun? then Step(t, ByCore(CoreReadRun)) else t;
      if t.c.core.HoldRun? { StepKeeps(t, ByCore(CoreReadRun)); }
      var rest := MenuWithin(free);
      if t.c.core.HoldRun? { RunCons(t, ByCore(CoreReadRun), rest); }
      var actions := if t.c.core.HoldRun? then [ByCore(CoreReadRun)] + rest else rest;
      assert NoHdmi(actions) && InMenu(Run(t, actions).c.main);
    } else {
      forall actions | NoHdmi(actions) ensures !InMenu(Run(t, actions).c.main) { DoomedStays(t, actions); }
    }
  }

  // ---------- quitting ----------

  /** The steps that set quit: the save-and-quit shortcut, leaving the game in the menu, an HDMI change. */
  predicate Quits(s: State, a: Action) {
    || (a == ByCore(CoreQuit) && s.c.core.Running?)
    || (a == ByMain(MainMenu(true)) && s.c.main.Menu?)
    || (a == ByMain(MainTail(true)) && s.c.main.Tail?)
  }

  ghost predicate QuitsAt(s: State, actions: seq<Action>, k: nat) { k < |actions| && Quits(Run(s, actions[..k]), actions[k]) }

  /** Quit is set exactly from the first such step on, and never cleared. */
  lemma {:induction false} QuitExactly(s: State, actions: seq<Action>)
    requires Initial(s)
    ensures Run(s, actions).c.quit <==> exists k: nat :: QuitsAt(s, actions, k)
  {
    if actions != [] {
      var n := |actions| - 1;
      QuitExactly(s, actions[..n]);
      QuitStep(Run(s, actions[..n]), actions[n]);
      forall k: nat | k < n ensures QuitsAt(s, actions, k) <==> QuitsAt(s, actions[..n], k) { assert actions[..k] == actions[..n][..k]; }
      if Quits(Run(s, actions[..n]), actions[n]) { assert QuitsAt(s, actions, n); }
    }
  }

  lemma QuitStep(s: State, a: Action)
    ensures Step(s, a).c.quit <==> s.c.quit || Quits(s, a)
  {
  }

  /** The core will not start another run. */
  predicate LastRun(c: Control) { c.quit && !c.core.WantRun? && !c.core.HoldRun? }

  lemma LastRunStep(s: State, a: Action)
    ensures LastRun(s.c) ==> LastRun(Step(s, a).c)
    ensures Quits(s, a) && a.ByCore? ==> LastRun(Step(s, a).c)
    ensures s.c.quit && a == ByCore(CoreReadRun) && CoreCan(s, CoreReadRun) ==> LastRun(Step(s, a).c)
  {
  }

  lemma {:induction false} LastRunStays(s: State, actions: seq<Action>, k: nat)
    requires k <= |actions| && LastRun(Run(s, actions[..k]).c)
    ensures LastRun(Run(s, actions).c)
  {
    if k == |actions| { assert actions[..k] == actions; }
    else {
      var n := |actions| - 1;
      assert actions[..n][..k] == actions[..k];
      LastRunStays(s, actions[..n], k);
      LastRunStep(Run(s, actions[..n]), actions[n]);
    }
  }

  /** After the shortcut the core never looks again whether to run; after another quit it looks once at most. */
  lemma NoRunAfterQuit(s: State, actions: seq<Action>, k: nat, j: nat)
    requires k < j < |actions|
    requires (QuitsAt(s, actions, k) && actions[k].ByCore?)
             || (Run(s, actions[..k]).c.quit && actions[k] == ByCore(CoreReadRun) && CoreCan(Run(s, actions[..k]), CoreReadRun))
    ensures !CoreCan(Run(s, actions[..j]), CoreReadRun)
  {
    LastRunStep(Run(s, actions[..k]), actions[k]);
    assert actions[..k + 1][..k] == actions[..k] && actions[..j][..k + 1] == actions[..k + 1];
    LastRunStays(s, actions[..j], k + 1);
  }

  /** The main thread will not publish from a menu or resume the core again. */
  predicate Parting(c: Control) { c.quit && (!InMenu(c.main) || c.main.Menu?) }

  lemma PartingStep(s: State, a: Action)
    ensures Parting(s.c) ==> Parting(Step(s, a).c)
    ensures a == ByMain(MainMenu(true)) && s.c.main.Menu? ==> Parting(Step(s, a).c)
  {
  }

  lemma {:induction false} PartingStays(s: State, actions: seq<Action>, k: nat)
    requires k <= |actions| && Parting(Run(s, actions[..k]).c)
    ensures Parting(Run(s, actions).c)
  {
    if k == |actions| { assert actions[..k] == actions; }
    else {
      var n := |actions| - 1;
      assert actions[..n][..k] == actions[..k];
      PartingStays(s, actions[..n], k);
      PartingStep(Run(s, actions[..n]), actions[n]);
    }
  }

  /** A game that is left in the menu, or a menu opened after quit, is not published again, and the core is not
      resumed. */
  lemma NothingAfterLeaving(s: State, actions: seq<Action>, k: nat, j: nat)
    requires k < j <= |actions|
    requires Parting(Run(s, actions[..k]).c) || (actions[k] == ByMain(MainMenu(true)) && Run(s, actions[..k]).c.main.Menu?)
    ensures !MainCan(Run(s, actions[..j]), MainReflag) && !MainCan(Run(s, actions[..j]), MainResume)
  {
    PartingStep(Run(s, actions[..k]), actions[k]);
    assert actions[..k + 1][..k] == actions[..k] && actions[..j][..k + 1] == actions[..k + 1];
    PartingStays(s, actions[..j], k + 1);
  }

  /** How far each thread still is from its end once quit is set, and what is left to copy there. */
  function MainStage(m: Main): nat {
    match m
    case GoSleep => 18
    case Asleep => 17
    case Want => 16
    case Woken => 16
    case Start => 16
    case TestReady => 15
    case TestQuit => 14
    case Take => 13
    case Show(_) => 12
    case Release => 11
    case After => 10
    case Menu => 9
    case Republish => 8
    case Refit => 7
    case Recopy(_) => 6
    case Reunlock => 5
    case WantResume => 4
    case HoldResume => 3
    case Tail => 2
    case Loop => 1
    case Done => 0
  }

  function MainRest(m: Main, size: nat): nat {
    match m
    case Show(drawn) => if drawn < size then size - drawn else 0
    case Recopy(copied) => if copied < size then size - copied else 0
    case _ => 0
  }

  predicate Nearer(stage: nat, rest: nat, stage': nat, rest': nat) { stage' < stage || (stage' == stage && rest' < rest) }

  predicate MainNearer(s: State, t: State) {
    Nearer(MainStage(s.c.main), MainRest(s.c.main, Size(s.p.buffer)), MainStage(t.c.main), MainRest(t.c.main, Size(t.p.buffer)))
  }

  predicate MainSame(s: State, t: State) {
    && MainStage(t.c.main) == MainStage(s.c.main)
    && MainRest(t.c.main, Size(t.p.buffer)) == MainRest(s.c.main, Size(s.p.buffer))
  }

  lemma MainProgress(s: State, a: MainAction)
    requires s.c.quit && NoLostWakeup(s.c) && MainCan(s, a)
    ensures MainNearer(s, MainStep(s, a))
  {
  }

  lemma CoreKeepsProgress(s: State, a: CoreAction)
    requires Exclusive(s.c) && CoreCan(s, a)
    ensures MainNearer(s, CoreStep(s, a)) || MainSame(s, CoreStep(s, a))
  {
  }

  /** Once quit is set, every step of the main thread brings it nearer to its end, and no step of the core takes
      it back: so it ends whatever the schedule. */
  lemma QuitProgress(s: State, before: seq<Action>, a: Action)
    requires Initial(s) && Run(s, before).c.quit
    ensures var t := Run(s, before); var u := Step(t, a);
      && (a.ByMain? && MainCan(t, a.m) ==> MainNearer(t, u))
      && (a.ByCore? ==> MainNearer(t, u) || MainSame(t, u))
  {
    RunKeeps(s, before);
    var t := Run(s, before);
    match a
    case ByMain(b) => if MainCan(t, b) { MainProgress(t, b); }
    case ByCore(b) => if CoreCan(t, b) { CoreKeepsProgress(t, b); }
  }

  function CoreNext(s: State): CoreAction {
    match s.c.core
    case Top => CoreTop
    case HoldRun => CoreReadRun
    case Running => CoreEnd
    case HoldQuit => CoreBroadcast
    case HoldPause => CorePause
    case HoldFrame => CoreResize
    case Copy(done) => if done < Size(s.p.buffer) then CoreCopy else CoreFlag
    case Signal => CoreSignal
    case Unlock => CoreUnlock
    case _ => CoreLock
  }

  function CoreStage(c: Core): nat {
    match c
    case WantFrame => 7
    case HoldFrame => 6
    case Copy(_) => 5
    case WantQuit => 5
    case WantPause => 5
    case WantRun => 4
    case HoldQuit => 4
    case HoldPause => 4
    case Signal => 4
    case HoldRun => 3
    case Unlock => 3
    case Running => 2
    case Top => 1
    case Exited => 0
  }

  function CoreRest(c: Core, size: nat): nat { if c.Copy? && c.done < size then size - c.done else 0 }

  /** A thread that can go on: the one inside the mutex, otherwise the core until it has ended. */
  function Ending(s: State): Action {
    if s.c.holder == MainHolds || (s.c.core.Exited? && s.c.holder == NoOne) then ByMain(MainNext(s)) else ByCore(CoreNext(s))
  }

  predicate CoreNearer(s: State, t: State) {
    Nearer(CoreStage(s.c.core), CoreRest(s.c.core, Size(s.p.buffer)), CoreStage(t.c.core), CoreRest(t.c.core, Size(t.p.buffer)))
  }

  lemma EndingMain(s: State)
    requires Exclusive(s.c) && NoLostWakeup(s.c) && s.c.quit && Ending(s).ByMain? && !(s.c.main.Done? && s.c.core.Exited?)
    ensures MainCan(s, MainNext(s))
    ensures var t := Step(s, Ending(s));
      t.c.core == s.c.core && CoreRest(t.c.core, Size(t.p.buffer)) == CoreRest(s.c.core, Size(s.p.buffer))
  {
  }

  lemma EndingCore(s: State)
    requires Exclusive(s.c) && s.c.quit && Ending(s).ByCore?
    ensures CoreNearer(s, Step(s, Ending(s)))
  {
  }

  lemma EndingStep(s: State)
    requires Invariant(s) && s.c.quit && !(s.c.main.Done? && s.c.core.Exited?)
    ensures var t := Step(s, Ending(s));
      && t.c.quit
      && (CoreNearer(s, t)
          || (t.c.core == s.c.core && CoreRest(t.c.core, Size(t.p.buffer)) == CoreRest(s.c.core, Size(s.p.buffer)) && MainNearer(s, t)))
  {
    QuitStep(s, Ending(s));
    if Ending(s).ByMain? { EndingMain(s); MainProgress(s, MainNext(s)); } else { EndingCore(s); }
  }

  /** From every state of a session in which quit is set both threads can come to their ends. */
  lemma EndsAfterQuit(s: State, before: seq<Action>) returns (actions: seq<Action>)
    requires Initial(s) && Run(s, before).c.quit
    ensures var t := Run(Run(s, before), actions); t.c.main.Done? && t.c.core.Exited?
  {
    RunKeeps(s, before);
    actions := EndFrom(Run(s, before));
  }

  lemma {:induction false} EndFrom(s: State) returns (actions: seq<Action>)
    requires Invariant(s) && s.c.quit
    ensures Run(s, actions).c.main.Done? && Run(s, actions).c.core.Exited?
    decreases CoreStage(s.c.core), CoreRest(s.c.core, Size(s.p.buffer)), MainStage(s.c.main), MainRest(s.c.main, Size(s.p.buffer))
  {
    actions := [];
    if !(s.c.main.Done? && s.c.core.Exited?) {
      EndingStep(s);
      StepKeeps(s, Ending(s));
      var rest := EndFrom(Step(s, Ending(s)));
      RunCons(s, Ending(s), rest);
      actions := [Ending(s)] + rest;
    }
  }

  // ---------- a pause without end ----------

  /** The main thread waits for a frame of a paused core. */
  predicate Frozen(s: State) {
    && Paused(s) && !s.c.ready
    && (s.c.main.Asleep? || s.c.main.Woken? || s.c.main.TestReady? || s.c.main.TestQuit? || s.c.main.GoSleep?)
  }

  /** There is no way out of it at all. */
  lemma {:induction false} FrozenForever(s: State, actions: seq<Action>)
    requires Frozen(s)
    ensures Frozen(Run(s, actions)) && Run(s, actions).x.shown == s.x.shown
  {
    if actions != [] {
      var n := |actions| - 1;
      FrozenForever(s, actions[..n]);
      FrozenStep(Run(s, actions[..n]), actions[n]);
    }
  }

  lemma FrozenStep(s: State, a: Action)
    requires Frozen(s)
    ensures Frozen(Step(s, a)) && Step(s, a).x.shown == s.x.shown
  {
  }

  /** It takes a run that asked for the menu and then published no frame, or a pause stored after the
      menu had been left. */
  lemma DoomedOnlyIf(s: State, actions: seq<Action>)
    requires Initial(s) && Doomed(Run(s, actions))
    ensures Run(s, actions).f.silent || Run(s, actions).f.late
  {
    RunKeeps(s, actions);
  }

  // ---------- runs that show it ----------

  /** Any reachable state can be carried on by one action. */
  lemma Then(s: State, actions: seq<Action>, a: Action) returns (more: seq<Action>)
    ensures Run(s, more) == Step(Run(s, actions), a)
  {
    more := actions + [a];
    assert more[..|actions|] == actions;
  }

  /** The core starts a run. */
  lemma ThenRun(s: State, actions: seq<Action>) returns (more: seq<Action>)
    requires var t := Run(s, actions); t.c.core.Top? && t.c.holder.NoOne? && !t.c.quit && t.f.shouldRun
    ensures var t := Run(s, actions); Run(s, more) == t.(c := t.c.(core := Running))
  {
    more := Then(s, actions, ByCore(CoreTop));
    more := Then(s, more, ByCore(CoreLock));
    more := Then(s, more, ByCore(CoreReadRun));
  }

  /** The core stores the pause of a menu it has asked for. */
  lemma ThenPause(s: State, actions: seq<Action>) returns (more: seq<Action>)
    requires var t := Run(s, actions); t.c.core.WantPause? && t.c.holder.NoOne?
    ensures var t := Run(s, actions);
            Run(s, more) == t.(c := t.c.(core := Running), f := t.f.(shouldRun := false, late := t.f.late || !t.f.showMenu))
  {
    more := Then(s, actions, ByCore(CoreLock));
    more := Then(s, more, ByCore(CorePause));
    more := Then(s, more, ByCore(CoreUnlock));
  }

  /** The main thread finds nothing and falls asleep. */
  lemma ThenSleep(s: State, actions: seq<Action>) returns (more: seq<Action>)
    requires var t := Run(s, actions); t.c.main.Loop? && t.c.holder.NoOne? && !t.c.quit && !t.c.ready
    ensures var t := Run(s, actions); Run(s, more) == t.(c := t.c.(main := Asleep))
  {
    more := Then(s, actions, ByMain(MainLoop));
    more := Then(s, more, ByMain(MainStart));
    more := Then(s, more, ByMain(MainLock));
    more := Then(s, more, ByMain(MainTestReady));
    more := Then(s, more, ByMain(MainTestQuit));
    more := Then(s, more, ByMain(MainSleep));
  }

  /** The rest of a copy. */
  lemma {:induction false} ThenCopyAll(s: State, actions: seq<Action>) returns (more: seq<Action>)
    requires var t := Run(s, actions); t.c.core.Copy? && t.p.buffer.Buffer?
    ensures var t, u := Run(s, actions), Run(s, more);
      && u.c == t.c.(core := u.c.core) && u.c.core.Copy? && u.c.core.done >= Size(u.p.buffer)
      && u.f == t.f && u.x == t.x && u.p == t.p.(buffer := u.p.buffer) && u.p.buffer.Buffer? && Size(u.p.buffer) == Size(t.p.buffer)
    decreases var t := Run(s, actions); Size(t.p.buffer) - t.c.core.done
  {
    more := actions;
    var t := Run(s, actions);
    if t.c.core.done < Size(t.p.buffer) {
      more := Then(s, actions, ByCore(CoreCopy));
      more := ThenCopyAll(s, more);
    }
  }

  /** The core enters the callback with a frame of a size of its own. */
  lemma ThenCopying(s: State, actions: seq<Action>, size: nat) returns (more: seq<Action>)
    requires var t := Run(s, actions); t.c.core.Running? && t.c.holder.NoOne?
    ensures var t, u := Run(s, actions), Run(s, more);
      && u.c == t.c.(core := Copy(0), holder := CoreHolds) && u.f == t.f && u.x == t.x
      && u.p == Fit(t.p.(sizes := t.p.sizes + [size]), size)
  {
    more := Then(s, actions, ByCore(CoreFrame(size)));
    more := Then(s, more, ByCore(CoreLock));
    more := Then(s, more, ByCore(CoreResize));
  }

  /** The core publishes a frame. */
  lemma ThenFrame(s: State, actions: seq<Action>, size: nat) returns (more: seq<Action>)
    requires var t := Run(s, actions); t.c.core.Running? && t.c.holder.NoOne?
    ensures var t, u := Run(s, actions), Run(s, more);
      && u.c == t.c.(ready := true, main := Wake(t.c.main)) && u.f == t.f.(asked := false) && u.x.shown == t.x.shown
      && u.p.buffer.Buffer? && Size(u.p.buffer) == size && u.p.source == t.p.source && !u.p.spoiled
      && u.p.gen == (if t.p.buffer.Buffer? && Size(t.p.buffer) == size then t.p.gen else t.p.gen + 1)
  {
    more := ThenCopying(s, actions, size);
    more := ThenCopyAll(s, more);
    more := Then(s, more, ByCore(CoreFlag));
    more := Then(s, more, ByCore(CoreSignal));
    more := Then(s, more, ByCore(CoreUnlock));
  }

  /** The rest of a presentation's drawing. */
  lemma {:induction false} ThenDrawAll(s: State, actions: seq<Action>) returns (more: seq<Action>)
    requires var t := Run(s, actions); t.c.main.Show? && |t.x.image| == t.c.main.drawn <= Size(t.p.buffer)
    ensures var t, u := Run(s, actions), Run(s, more);
      && u.c == t.c.(main := Show(Size(t.p.buffer))) && u.f == t.f && u.p == t.p
      && u.x == t.x.(image := u.x.image) && |u.x.image| == Size(t.p.buffer)
    decreases var t := Run(s, actions); Size(t.p.buffer) - t.c.main.drawn
  {
    more := actions;
    var t := Run(s, actions);
    if t.c.main.drawn < Size(t.p.buffer) {
      more := Then(s, actions, ByMain(MainDraw));
      more := ThenDrawAll(s, more);
    }
  }

  /** The main thread takes what is ready. */
  lemma ThenTake(s: State, actions: seq<Action>) returns (more: seq<Action>)
    requires var t := Run(s, actions); (t.c.main.Want? || t.c.main.Woken?) && t.c.holder.NoOne? && t.c.ready && t.p.buffer.Buffer?
    ensures var t, u := Run(s, actions), Run(s, more);
      && u.c == t.c.(ready := false, main := Show(0), holder := MainHolds) && u.f == t.f
      && u.p == t.p.(source := Source(t.p.gen, Size(t.p.buffer)))
      && u.x == t.x.(taken := t.x.cause, cause := NOBODY, image := [])
  {
    more := Then(s, actions, ByMain(MainLock));
    more := Then(s, more, ByMain(MainTestReady));
    more := Then(s, more, ByMain(MainTake));
  }

  /** The main thread presents what is ready. */
  lemma ThenPresent(s: State, actions: seq<Action>) returns (more: seq<Action>)
    requires var t := Run(s, actions); (t.c.main.Want? || t.c.main.Woken?) && t.c.holder.NoOne? && t.c.ready && t.p.buffer.Buffer?
    ensures var t, u := Run(s, actions), Run(s, more);
      && u.c == t.c.(ready := false, main := After) && u.f == t.f
      && u.p == t.p.(source := Source(t.p.gen, Size(t.p.buffer)))
      && |u.x.shown| == |t.x.shown| + 1
      && u.x.shown[|t.x.shown|].spoiled == t.p.spoiled && |u.x.shown[|t.x.shown|].image| == Size(t.p.buffer)
  {
    more := ThenTake(s, actions);
    more := ThenDrawAll(s, more);
    more := Then(s, more, ByMain(MainFlip));
    more := Then(s, more, ByMain(MainUnlock));
  }

  /** The rest of the menu's copy. */
  lemma {:induction false} ThenRecopyAll(s: State, actions: seq<Action>) returns (more: seq<Action>)
    requires var t := Run(s, actions); t.c.main.Recopy? && t.p.buffer.Buffer?
    ensures var t, u := Run(s, actions), Run(s, more);
      && u.c == t.c.(main := u.c.main) && u.c.main.Recopy? && u.c.main.copied >= Size(u.p.buffer)
      && u.f == t.f && u.x == t.x && u.p == t.p.(buffer := u.p.buffer) && u.p.buffer.Buffer? && Size(u.p.buffer) == Size(t.p.buffer)
    decreases var t := Run(s, actions); Size(t.p.buffer) - t.c.main.copied
  {
    more := actions;
    var t := Run(s, actions);
    if t.c.main.copied < Size(t.p.buffer) {
      more := Then(s, actions, ByMain(MainRecopy));
      more := ThenRecopyAll(s, more);
    }
  }

  /** The main thread leaves the menu, up to the copy of its own picture. */
  lemma ThenRefit(s: State, actions: seq<Action>) returns (more: seq<Action>)
    requires var t := Run(s, actions); t.c.main.Menu? && t.c.holder.NoOne? && !t.c.quit && t.p.source.Source?
    ensures var t, u := Run(s, actions), Run(s, more);
      && u.c == t.c.(main := Recopy(0), holder := MainHolds) && u.f == t.f.(showMenu := false) && u.x == t.x
      && u.p == Fit(t.p, t.p.source.size)
  {
    more := Then(s, actions, ByMain(MainMenu(false)));
    more := Then(s, more, ByMain(MainLock));
    more := Then(s, more, ByMain(MainRefit));
  }

  /** The main thread leaves the menu, publishes its picture again, and resumes the core. */
  lemma ThenLeave(s: State, actions: seq<Action>) returns (more: seq<Action>)
    requires var t := Run(s, actions); t.c.main.Menu? && t.c.holder.NoOne? && !t.c.quit && t.p.source.Source?
    ensures var t, u := Run(s, actions), Run(s, more);
      && u.c == t.c.(main := Loop, ready := true) && u.f == t.f.(showMenu := false, shouldRun := true)
      && u.p.buffer.Buffer? && Size(u.p.buffer) == t.p.source.size && u.x.shown == t.x.shown
      && u.p.spoiled == (t.p.spoiled || t.p.source.gen != Fit(t.p, t.p.source.size).gen)
  {
    more := ThenRefit(s, actions);
    more := ThenRecopyAll(s, more);
    more := Then(s, more, ByMain(MainReflag));
    more := Then(s, more, ByMain(MainUnlock));
    more := ThenResume(s, more);
  }

  /** While the core does nothing, leaving the menu spoils the picture exactly when the backbuffer has been
      replaced since it was last presented. */
  lemma LeavingSpoilsExactly(s: State, actions: seq<Action>) returns (more: seq<Action>)
    requires Initial(s)
    requires var t := Run(s, actions); t.c.main.Menu? && t.c.holder.NoOne? && !t.c.quit && t.p.source.Source? && !t.p.spoiled
    ensures Run(s, more).c.main == Loop && (Run(s, more).p.spoiled <==> Gone(Run(s, actions).p))
  {
    RunKeeps(s, actions);
    more := ThenLeave(s, actions);
  }

  lemma ThenResume(s: State, actions: seq<Action>) returns (more: seq<Action>)
    requires var t := Run(s, actions); t.c.main.WantResume? && t.c.holder.NoOne?
    ensures var t := Run(s, actions); Run(s, more) == t.(c := t.c.(main := Loop), f := t.f.(shouldRun := true))
  {
    more := Then(s, actions, ByMain(MainLock));
    more := Then(s, more, ByMain(MainResume));
    more := Then(s, more, ByMain(MainTail(false)));
  }

  lemma ThenStart(s: State, actions: seq<Action>) returns (more: seq<Action>)
    requires Run(s, actions).c.main.Loop? && !Run(s, actions).c.quit
    ensures var t := Run(s, actions); Run(s, more) == t.(c := t.c.(main := Want))
  {
    more := Then(s, actions, ByMain(MainLoop));
    more := Then(s, more, ByMain(MainStart));
  }

  lemma ThenPass(s: State, actions: seq<Action>) returns (more: seq<Action>)
    requires Run(s, actions).c.main.After? && !Run(s, actions).f.showMenu
    ensures var t := Run(s, actions); Run(s, more) == t.(c := t.c.(main := Loop))
  {
    more := Then(s, actions, ByMain(MainAfter));
    more := Then(s, more, ByMain(MainTail(false)));
  }

  /** A round of the main loop that presents and finds no menu. */
  lemma ThenRound(s: State, actions: seq<Action>) returns (more: seq<Action>)
    requires var t := Run(s, actions);
      t.c.main.Loop? && t.c.holder.NoOne? && t.c.ready && !t.c.quit && !t.f.showMenu && t.p.buffer.Buffer?
    ensures var t, u := Run(s, actions), Run(s, more);
      && u.c == t.c.(ready := false) && u.f == t.f && |u.x.shown| == |t.x.shown| + 1
      && u.x.shown[|t.x.shown|].spoiled == t.p.spoiled && |u.x.shown[|t.x.shown|].image| == Size(t.p.buffer)
  {
    more := ThenStart(s, actions);
    more := ThenPresent(s, more);
    more := ThenPass(s, more);
  }

  /** One frame presented, and the menu opened while the core has yet to store its pause. */
  lemma ThenOpen(s: State, size: nat) returns (actions: seq<Action>)
    requires Initial(s)
    ensures var t := Run(s, actions);
      && t.c == Control(WantPause, Menu, NoOne, false, false) && t.f == Flags(true, true, true, false, false)
      && t.p.buffer.Buffer? && Size(t.p.buffer) == size && t.p.source == Source(t.p.gen, size) && |t.x.shown| == 1
  {
    actions := ThenAsk(s, size);
    actions := ThenPresent(s, actions);
    actions := Then(s, actions, ByMain(MainAfter));
  }

  lemma ThenAsk(s: State, size: nat) returns (actions: seq<Action>)
    requires Initial(s)
    ensures var t := Run(s, actions);
      && t.c == Control(WantPause, Want, NoOne, false, true) && t.f == Flags(true, true, true, false, false)
      && t.p.buffer.Buffer? && Size(t.p.buffer) == size && t.x.shown == []
  {
    actions := ThenFirst(s, size);
    actions := ThenStart(s, actions);
    actions := Then(s, actions, ByCore(CoreMenu));
  }

  lemma ThenFirst(s: State, size: nat) returns (actions: seq<Action>)
    requires Initial(s)
    ensures var t := Run(s, actions);
      && t.c == Control(Running, Loop, NoOne, false, true) && t.f == Flags(false, true, false, false, false)
      && t.p.buffer.Buffer? && Size(t.p.buffer) == size && t.x.shown == []
  {
    actions := ThenRun(s, []);
    actions := ThenFrame(s, actions, size);
  }

  /** A core that asks for the menu and hands over no picture in the rest of that run (a null pointer for a
      repeated frame, say) freezes a main thread that was waiting. */
  lemma SilentRunFreezes(s: State) returns (actions: seq<Action>)
    requires Initial(s)
    ensures Frozen(Run(s, actions)) && Run(s, actions).f.silent && !Run(s, actions).f.late
  {
    actions := ThenRun(s, []);
    actions := ThenSleep(s, actions);
    actions := Then(s, actions, ByCore(CoreMenu));
    actions := ThenPause(s, actions);
    actions := Then(s, actions, ByCore(CoreEnd));
  }

  /** So does a core whose pause arrives only after the menu has been opened and left. */
  lemma LatePauseFreezes(s: State) returns (actions: seq<Action>)
    requires Initial(s)
    ensures Frozen(Run(s, actions)) && Run(s, actions).f.late && !Run(s, actions).f.silent
  {
    actions := ThenOpen(s, 0);
    actions := ThenLeave(s, actions);
    actions := ThenPause(s, actions);
    actions := ThenFrame(s, actions, 0);
    actions := Then(s, actions, ByCore(CoreEnd));
    actions := ThenRound(s, actions);
    actions := ThenSleep(s, actions);
  }

  /** A core that changes its frame size while the menu is open makes the menu publish, and the main thread
      present, pixels of no frame. */
  lemma SizeChangeSpoils(s: State) returns (actions: seq<Action>)
    requires Initial(s)
    ensures var t := Run(s, actions); |t.x.shown| == 2 && t.x.shown[1].image == [Garbage]
  {
    actions := ThenOpen(s, 1);
    actions := ThenPause(s, actions);
    actions := ThenFrame(s, actions, 0);
    actions := ThenLeave(s, actions);
    actions := ThenRound(s, actions);
    RunKeeps(s, actions);
    assert ImageOk(Run(s, actions).x.shown[1], Run(s, actions).p.sizes);
  }
}

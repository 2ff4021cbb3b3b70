/**
 The vendor-visible side of the switch test application: the calls it makes on swapchains, DLSS-G,
 Reflex and FSR, in order, and a judge that knows nothing of the application's own variables.
 The ordering rules are stated on the log alone.
 */
module VendorLog {

  datatype ChainKind = NoChain | NativeChain | StreamlineChain | FsrChain

  datatype Event =
    | ChainCreated(kind: ChainKind)
    | ChainReleased
    | FsrProxyDestroyed
    | Presented(ok: bool, syncInterval: nat)
    | DlssGSet(on: bool, ok: bool)
    | ReflexSet(low: bool, ok: bool)
    | FsrConfigured(enable: bool, ok: bool)
    | FsrWaited(ok: bool)
    | ModeSet(fsr: bool, ok: bool)

  /** What the last accepted option of DLSS-G or FSR asks for; stuck when it is On and an Off has been refused since. */
  datatype Generation = Stopped | Running | Stuck

  datatype Image = NotShown | Shown

  datatype Residue = Clean | Dirty

  /**
   What the calls so far have made of the vendor runtimes.
   `image`: whether the live swapchain has had a successful Present.
   `dlss`, `fsr`: the options in force.
   `residue`: dirty when FSR was enabled on the live FSR proxy and no Present has succeeded since with
   FSR disabled.
   `life`: whether FSR has refused a call since the last swapchain was created.
   `fsrMode`: whether the mode last set is FSR. `stray`: whether FSR was enabled while it was not, and neither has a
   mode been set nor an FSR proxy destroyed since.
   */
  datatype World = World(chain: ChainKind, image: Image, dlss: Generation, fsr: Generation, residue: Residue,
                         life: Failures, fsrMode: bool, stray: bool)

  datatype Finding = Kept | Broken

  datatype Failures = NeverFailed | HasFailed

  /**
   The judge's record. `lawful`: the unconditional ordering rules held at every call.
   `quiet`: no FSR proxy was torn down dirty. `spared`: none was, except after FSR refused it a call.
   `covered`: no Streamline swapchain had its first successful Present with DLSS-G on.
   `excused`: none had it with DLSS-G on, except after a refused Off that nothing has made good.
   `uncapped`: every Present through a Streamline swapchain used sync interval 0.
   The rest remember whether a DLSS-G Off call or a whole mode switch ever failed.
   */
  datatype Verdict = Verdict(
    world: World,
    lawful: Finding, quiet: Finding, spared: Finding, covered: Finding, excused: Finding, uncapped: Finding,
    dlssOffCalls: Failures, switches: Failures)

  function AfterRefusal(g: Generation): Generation {
    if g == Running then Stuck else g
  }

  /** The world after an FSR option was accepted or refused. */
  function FsrAnswer(w: World, enable: bool, ok: bool): World {
    if !ok then w.(life := HasFailed, fsr := if enable then w.fsr else AfterRefusal(w.fsr))
    else if !enable then w.(fsr := Stopped)
    else w.(fsr := Running, residue := if w.chain == FsrChain then Dirty else w.residue, stray := w.stray || !w.fsrMode)
  }

  /** The swapchain gives way to another, or to none. */
  function NewChain(w: World, kind: ChainKind, made: bool): World {
    w.(chain := kind, image := NotShown, residue := Clean, life := if made then NeverFailed else w.life)
  }

  /** The world once an FSR proxy is destroyed. */
  function ProxyGone(w: World): World {
    w.(chain := NoChain, image := NotShown, residue := Clean, fsr := Stopped, stray := false)
  }

  function DlssAnswer(g: Generation, on: bool, ok: bool): Generation {
    if ok then if on then Running else Stopped
    else if on then g
    else AfterRefusal(g)
  }

  /** The world after a Present. */
  function AfterPresent(w: World, ok: bool): World {
    if !ok then w
    else
      w.(image := if w.chain == NoChain then NotShown else Shown,
         residue := if w.fsr == Stopped then Clean else w.residue)
  }

  function Observe(w: World, e: Event): World {
    match e
    case ChainCreated(kind) => NewChain(w, kind, true)
    case ChainReleased => NewChain(w, NoChain, false)
    case FsrProxyDestroyed => ProxyGone(w)
    case Presented(ok, _) => AfterPresent(w, ok)
    case DlssGSet(on, ok) => w.(dlss := DlssAnswer(w.dlss, on, ok))
    case FsrConfigured(enable, ok) => FsrAnswer(w, enable, ok)
    case ReflexSet(_, _) => w
    case FsrWaited(ok) => if ok then w else w.(life := HasFailed)
    case ModeSet(fsr, _) => w.(fsrMode := fsr, stray := false)
  }

  /** DLSS-G is enabled only on a Streamline chain that has presented; Reflex never drops under one. */
  predicate LawfulCall(w: World, e: Event) {
    && (e.DlssGSet? && e.on ==> w.chain == StreamlineChain && w.image == Shown)
    && (e.ReflexSet? && !e.low ==> w.chain != StreamlineChain)
  }

  predicate QuietCall(w: World, e: Event) {
    e.FsrProxyDestroyed? ==> w.residue == Clean
  }

  predicate SparedCall(w: World, e: Event) {
    e.FsrProxyDestroyed? && w.residue == Dirty ==> w.life == HasFailed
  }

  predicate FirstImageCall(w: World, e: Event) {
    e.Presented? && e.ok && w.chain == StreamlineChain && w.image == NotShown
  }

  predicate CoveredCall(w: World, e: Event) {
    FirstImageCall(w, e) ==> w.dlss == Stopped
  }

  predicate ExcusedCall(w: World, e: Event) {
    FirstImageCall(w, e) ==> w.dlss != Running
  }

  predicate UncappedCall(w: World, e: Event) {
    e.Presented? && w.chain == StreamlineChain ==> e.syncInterval == 0
  }

  function JudgeStep(v: Verdict, e: Event): Verdict {
    Verdict(
      Observe(v.world, e),
      if LawfulCall(v.world, e) then v.lawful else Broken,
      if QuietCall(v.world, e) then v.quiet else Broken,
      if SparedCall(v.world, e) then v.spared else Broken,
      if CoveredCall(v.world, e) then v.covered else Broken,
      if ExcusedCall(v.world, e) then v.excused else Broken,
      if UncappedCall(v.world, e) then v.uncapped else Broken,
      if e.DlssGSet? && !e.on && !e.ok then HasFailed else v.dlssOffCalls,
      if e.ModeSet? && !e.ok then HasFailed else v.switches)
  }

  const EMPTY_WORLD := World(NoChain, NotShown, Stopped, Stopped, Clean, NeverFailed, false, false)

  const NOTHING_YET := Verdict(EMPTY_WORLD, Kept, Kept, Kept, Kept, Kept, Kept, NeverFailed, NeverFailed)

  function Judge(log: seq<Event>): Verdict {
    if log == [] then NOTHING_YET else JudgeStep(Judge(log[..|log| - 1]), log[|log| - 1])
  }

  lemma JudgeAppend(log: seq<Event>, e: Event)
    ensures Judge(log + [e]) == JudgeStep(Judge(log), e)
  {
    assert (log + [e])[..|log|] == log;
  }

  /** The calls made so far, carried together with the judge's record of them. */
  datatype RawTrace = Trace(calls: seq<Event>, verdict: Verdict)

  type Trace = t: RawTrace | t.verdict == Judge(t.calls) witness RawTrace.Trace([], NOTHING_YET)

  const NO_CALLS: Trace := RawTrace.Trace([], NOTHING_YET)

  function Append(t: Trace, e: Event): (r: Trace)
    ensures r.calls == t.calls + [e] && r.verdict == JudgeStep(t.verdict, e)
  {
    JudgeAppend(t.calls, e);
    RawTrace.Trace(t.calls + [e], JudgeStep(t.verdict, e))
  }

  // ---------------------------------------------------------------------------------------------
  // What single calls do to the judge's record.
  // ---------------------------------------------------------------------------------------------

  lemma ChainVerdicts(v: Verdict, kind: ChainKind)
    ensures JudgeStep(v, ChainReleased) == v.(world := NewChain(v.world, NoChain, false))
    ensures JudgeStep(v, ChainCreated(kind)) == v.(world := NewChain(v.world, kind, true))
    ensures NewChain(NewChain(v.world, NoChain, false), kind, true) == NewChain(v.world, kind, true)
  {
  }

  lemma ProxyVerdict(v: Verdict)
    ensures JudgeStep(v, FsrProxyDestroyed) == v.(world := ProxyGone(v.world),
              quiet := if v.world.residue == Dirty then Broken else v.quiet,
              spared := if v.world.residue == Dirty && v.world.life == NeverFailed then Broken else v.spared)
  {
  }

  lemma DlssVerdict(v: Verdict, on: bool, ok: bool)
    requires on ==> v.world.chain == StreamlineChain && v.world.image == Shown
    ensures JudgeStep(v, DlssGSet(on, ok)) == v.(
              world := v.world.(dlss := DlssAnswer(v.world.dlss, on, ok)),
              dlssOffCalls := if !on && !ok then HasFailed else v.dlssOffCalls)
  {
  }

  lemma ReflexVerdict(v: Verdict, low: bool, ok: bool)
    requires low || v.world.chain != StreamlineChain
    ensures JudgeStep(v, ReflexSet(low, ok)) == v
  {
  }

  lemma FsrVerdicts(v: Verdict, enable: bool, ok: bool)
    ensures JudgeStep(v, FsrConfigured(enable, ok)) == v.(world := FsrAnswer(v.world, enable, ok))
    ensures JudgeStep(v, FsrWaited(ok)) == if ok then v else v.(world := v.world.(life := HasFailed))
  {
  }

  lemma PresentVerdict(v: Verdict, ok: bool, sync: nat)
    ensures var p, r := Presented(ok, sync), JudgeStep(v, Presented(ok, sync));
            r == v.(world := AfterPresent(v.world, ok),
                    covered := if FirstImageCall(v.world, p) && v.world.dlss != Stopped then Broken else v.covered,
                    excused := if FirstImageCall(v.world, p) && v.world.dlss == Running then Broken else v.excused,
                    uncapped := if v.world.chain == StreamlineChain && sync != 0 then Broken else v.uncapped)
  {
  }

  lemma ModeSetVerdict(v: Verdict, fsr: bool, ok: bool)
    ensures JudgeStep(v, ModeSet(fsr, ok)) == v.(
              world := v.world.(fsrMode := fsr, stray := false), switches := if ok then v.switches else HasFailed)
  {
  }

  // ---------------------------------------------------------------------------------------------
  // What the judge's bits mean, in terms of positions of the log.
  // ---------------------------------------------------------------------------------------------

  predicate EndsChain(e: Event) {
    e.ChainCreated? || e.ChainReleased? || e.FsrProxyDestroyed?
  }

  /** At position i the live swapchain is the one of the given kind created at position c. */
  ghost predicate LiveSince(log: seq<Event>, c: nat, i: nat, kind: ChainKind) {
    c < i <= |log| && log[c] == ChainCreated(kind) && forall k :: c < k < i ==> !EndsChain(log[k])
  }

  ghost predicate PresentedBetween(log: seq<Event>, c: nat, i: nat) {
    exists p :: c < p < i <= |log| && log[p].Presented? && log[p].ok
  }

  lemma StillLive(log: seq<Event>, c: nat, kind: ChainKind)
    requires 0 < |log| && c < |log| - 1
    ensures LiveSince(log, c, |log|, kind)
            <==> LiveSince(log[..|log| - 1], c, |log| - 1, kind) && !EndsChain(log[|log| - 1])
    ensures PresentedBetween(log, c, |log|)
            <==> PresentedBetween(log[..|log| - 1], c, |log| - 1) || (log[|log| - 1].Presented? && log[|log| - 1].ok)
  {
    var n, front := |log|, log[..|log| - 1];
    assert forall k :: 0 <= k < n - 1 ==> front[k] == log[k];
    assert EndsChain(log[n - 1]) ==> !LiveSince(log, c, n, kind);
    if p: nat :| c < p < n - 1 && front[p].Presented? && front[p].ok {
      assert log[p].Presented? && log[p].ok;
    }
  }

  lemma {:induction false} ChainMeaning(log: seq<Event>, kind: ChainKind)
    requires kind != NoChain
    ensures Judge(log).world.chain == kind <==> exists c :: LiveSince(log, c, |log|, kind)
  {
    if log != [] {
      var m, e := |log| - 1, log[|log| - 1];
      ChainMeaning(log[..m], kind);
      forall c: nat | c < m
        ensures LiveSince(log, c, |log|, kind) <==> LiveSince(log[..m], c, m, kind) && !EndsChain(e)
      {
        StillLive(log, c, kind);
      }
      assert LiveSince(log, m, |log|, kind) <==> e == ChainCreated(kind);
      assert forall c: nat :: LiveSince(log[..m], c, m, kind) ==> c < m;
      hide LiveSince;
    }
  }

  ghost predicate ShownSince(log: seq<Event>, c: nat, i: nat, kind: ChainKind) {
    LiveSince(log, c, i, kind) && PresentedBetween(log, c, i)
  }

  lemma {:induction false} ImageMeaning(log: seq<Event>, kind: ChainKind)
    requires kind != NoChain
    ensures Judge(log).world.chain == kind && Judge(log).world.image == Shown
            <==> exists c :: ShownSince(log, c, |log|, kind)
  {
    if log != [] {
      var m, e := |log| - 1, log[|log| - 1];
      ImageMeaning(log[..m], kind);
      ChainMeaning(log[..m], kind);
      var shows := e.Presented? && e.ok;
      forall c: nat | c < m
        ensures ShownSince(log, c, |log|, kind)
                <==> (ShownSince(log[..m], c, m, kind) || (shows && LiveSince(log[..m], c, m, kind))) && !EndsChain(e)
      {
        StillLive(log, c, kind);
      }
      assert !ShownSince(log, m, |log|, kind);
      assert forall c: nat :: LiveSince(log[..m], c, m, kind) ==> c < m;
      hide LiveSince, ShownSince;
    }
  }

  /** The judge's world at the end of a log is exactly what the positions say. */
  lemma WorldMeaning(log: seq<Event>, kind: ChainKind)
    requires kind != NoChain
    ensures Judge(log).world.chain == kind <==> exists c :: LiveSince(log, c, |log|, kind)
    ensures Judge(log).world.chain == kind && Judge(log).world.image == Shown
            <==> exists c :: LiveSince(log, c, |log|, kind) && PresentedBetween(log, c, |log|)
  {
    ChainMeaning(log, kind);
    ImageMeaning(log, kind);
    hide Judge, LiveSince, PresentedBetween;
    if c: nat :| LiveSince(log, c, |log|, kind) && PresentedBetween(log, c, |log|) {
      assert ShownSince(log, c, |log|, kind);
    }
  }

  /**
   A lawful log, read position by position: every DLSS-G enable has a Streamline chain created before it,
   still alive, with a successful Present in between; and no Reflex Off call falls in a Streamline
   chain's lifetime.
   */
  ghost predicate OrderingRules(log: seq<Event>) {
    && (forall i :: 0 <= i < |log| && log[i].DlssGSet? && log[i].on ==>
          exists c :: LiveSince(log, c, i, StreamlineChain) && PresentedBetween(log, c, i))
    && (forall i :: 0 <= i < |log| && log[i].ReflexSet? && !log[i].low ==>
          !exists c :: LiveSince(log, c, i, StreamlineChain))
  }

  lemma LivenessIsLocal(log: seq<Event>, i: nat, c: nat, kind: ChainKind)
    requires i <= |log|
    ensures LiveSince(log, c, i, kind) <==> LiveSince(log[..i], c, i, kind)
    ensures PresentedBetween(log, c, i) <==> PresentedBetween(log[..i], c, i)
  {
    if p :| c < p < i && log[p].Presented? && log[p].ok {
      assert log[..i][p].Presented?;
    }
  }

  lemma {:induction false} LawfulMeaning(log: seq<Event>)
    ensures Judge(log).lawful == Kept <==> OrderingRules(log)
  {
    if log != [] {
      var n := |log| - 1;
      var front, e := log[..n], log[n];
      LawfulMeaning(front);
      WorldMeaning(front, StreamlineChain);
      forall i, c: nat | 0 <= i <= n
        ensures LiveSince(log, c, i, StreamlineChain) <==> LiveSince(front, c, i, StreamlineChain)
        ensures PresentedBetween(log, c, i) <==> PresentedBetween(front, c, i)
      {
        LivenessIsLocal(log, i, c, StreamlineChain);
        LivenessIsLocal(front, i, c, StreamlineChain);
        assert front[..i] == log[..i];
      }
      assert forall i :: 0 <= i < n ==> front[i] == log[i];
    }
  }

  // ---------------------------------------------------------------------------------------------
  // The three conditional rules, position by position.
  // ---------------------------------------------------------------------------------------------

  /** Before position i, the last accepted DLSS-G option was On. */
  ghost predicate DlssOnAt(log: seq<Event>, i: nat) {
    exists j :: DlssEnabledAt(log, j, i)
  }

  ghost predicate DlssEnabledAt(log: seq<Event>, j: nat, i: nat) {
    && j < i <= |log| && log[j] == DlssGSet(true, true)
    && forall k :: j < k < i ==> !(log[k].DlssGSet? && log[k].ok)
  }

  /** Before position i, DLSS-G was on and refused to go off, and no option has been accepted since. */
  ghost predicate OffLingersAt(log: seq<Event>, i: nat) {
    exists j :: RefusedOff(log, j, i)
  }

  ghost predicate RefusedOff(log: seq<Event>, j: nat, i: nat) {
    && j < i <= |log| && log[j] == DlssGSet(false, false) && DlssOnAt(log, j)
    && forall k :: j < k < i ==> !(log[k].DlssGSet? && log[k].ok)
  }

  /** Position i is the first image of the Streamline swapchain created at c. */
  ghost predicate FirstImage(log: seq<Event>, c: nat, i: nat) {
    && c < i < |log| && log[i].Presented? && log[i].ok
    && LiveSince(log, c, i, StreamlineChain) && !PresentedBetween(log, c, i)
  }

  /** Before position i, FSR was last enabled and its proxy not destroyed since. */
  ghost predicate FsrOnAt(log: seq<Event>, i: nat) {
    exists j :: FsrEnabledAt(log, j, i)
  }

  ghost predicate FsrEnabledAt(log: seq<Event>, j: nat, i: nat) {
    && j < i <= |log| && log[j] == FsrConfigured(true, true)
    && forall k :: j < k < i ==> !(log[k].FsrConfigured? && log[k].ok) && !log[k].FsrProxyDestroyed?
  }

  /** FSR was enabled at j on a proxy that is still alive at i and has shown no image since with FSR disabled. */
  ghost predicate DirtySince(log: seq<Event>, j: nat, i: nat) {
    && j < i <= |log| && log[j] == FsrConfigured(true, true)
    && (exists c :: LiveSince(log, c, j, FsrChain))
    && forall k :: j < k < i ==> !EndsChain(log[k]) && (log[k].Presented? && log[k].ok ==> FsrOnAt(log, k))
  }

  /** No FSR proxy is destroyed before an image was shown through it with FSR disabled. */
  ghost predicate QuietRule(log: seq<Event>) {
    forall i, j :: 0 <= j < i < |log| && log[i].FsrProxyDestroyed? ==> !DirtySince(log, j, i)
  }

  /** FSR has refused a call since the last swapchain was created. */
  ghost predicate RefusedSinceCreation(log: seq<Event>, i: nat) {
    exists r :: FsrRefused(log, r, i)
  }

  ghost predicate FsrRefused(log: seq<Event>, r: nat, i: nat) {
    && r < i <= |log| && (log[r].FsrConfigured? || log[r].FsrWaited?) && !log[r].ok
    && forall k :: r < k < i ==> !log[k].ChainCreated?
  }

  /** An FSR proxy is only destroyed dirty after FSR refused it a call. */
  ghost predicate SparedRule(log: seq<Event>) {
    forall i, j :: 0 <= j < i < |log| && log[i].FsrProxyDestroyed? && DirtySince(log, j, i) ==>
      RefusedSinceCreation(log, i)
  }

  /** No FSR proxy that was refused a call is destroyed while it owes an image. */
  ghost predicate NothingOwed(log: seq<Event>) {
    forall i, j :: 0 <= j < i < |log| && log[i].FsrProxyDestroyed? && RefusedSinceCreation(log, i) ==>
      !DirtySince(log, j, i)
  }

  /** Before position i FSR was on and refused to go off; no option has been accepted nor the proxy destroyed since. */
  ghost predicate FsrOffLingersAt(log: seq<Event>, i: nat) {
    exists j :: RefusedFsrOff(log, j, i)
  }

  ghost predicate RefusedFsrOff(log: seq<Event>, j: nat, i: nat) {
    && j < i <= |log| && log[j] == FsrConfigured(false, false) && FsrOnAt(log, j)
    && forall k :: j < k < i ==> !(log[k].FsrConfigured? && log[k].ok) && !log[k].FsrProxyDestroyed?
  }

  /** Before position i, the mode last set is FSR. */
  ghost predicate FsrModeAt(log: seq<Event>, i: nat) {
    exists m :: FsrModeSet(log, m, i)
  }

  ghost predicate FsrModeSet(log: seq<Event>, m: nat, i: nat) {
    m < i <= |log| && log[m].ModeSet? && log[m].fsr && forall k :: m < k < i ==> !log[k].ModeSet?
  }

  /** Before position i, FSR was enabled in another mode, and no mode has been set nor an FSR proxy destroyed since. */
  ghost predicate StrayAt(log: seq<Event>, i: nat) {
    exists r :: StrayEnable(log, r, i)
  }

  ghost predicate StrayEnable(log: seq<Event>, r: nat, i: nat) {
    && r < i <= |log| && log[r] == FsrConfigured(true, true) && !FsrModeAt(log, r)
    && forall k :: r < k < i ==> !log[k].ModeSet? && !log[k].FsrProxyDestroyed?
  }

  /** A Streamline swapchain's first image has DLSS-G off. */
  ghost predicate CoveredRule(log: seq<Event>) {
    forall i: nat, c: nat :: FirstImage(log, c, i) ==> !DlssOnAt(log, i)
  }

  /** A Streamline swapchain's first image has DLSS-G on only where a refused Off still tells. */
  ghost predicate ExcusedRule(log: seq<Event>) {
    forall i: nat, c: nat :: FirstImage(log, c, i) && DlssOnAt(log, i) ==> OffLingersAt(log, i)
  }

  /** No Streamline swapchain's first image comes while a refused Off still tells. */
  ghost predicate NoLingeringOff(log: seq<Event>) {
    forall i: nat, c: nat :: FirstImage(log, c, i) ==> !OffLingersAt(log, i)
  }

  ghost predicate UncappedRule(log: seq<Event>) {
    forall i, c :: 0 <= c < i < |log| && log[i].Presented? && LiveSince(log, c, i, StreamlineChain) ==>
      log[i].syncInterval == 0
  }

  lemma DlssOnIsLocal(log: seq<Event>, i: nat)
    requires i <= |log|
    ensures DlssOnAt(log, i) <==> DlssOnAt(log[..i], i)
  {
    assert forall k :: 0 <= k < i ==> log[..i][k] == log[k];
    forall j: nat
      ensures DlssEnabledAt(log, j, i) <==> DlssEnabledAt(log[..i], j, i)
    {
    }
  }

  lemma {:induction false} DlssMeaning(log: seq<Event>)
    ensures Judge(log).world.dlss != Stopped <==> DlssOnAt(log, |log|)
  {
    if log != [] {
      var n, e := |log| - 1, log[|log| - 1];
      DlssMeaning(log[..n]);
      DlssOnIsLocal(log, n);
      assert forall j: nat :: j < n ==>
        (DlssEnabledAt(log, j, |log|) <==> DlssEnabledAt(log, j, n) && !(e.DlssGSet? && e.ok));
      assert DlssEnabledAt(log, n, |log|) <==> e == DlssGSet(true, true);
    }
  }

  lemma FsrOnIsLocal(log: seq<Event>, i: nat)
    requires i <= |log|
    ensures FsrOnAt(log, i) <==> FsrOnAt(log[..i], i)
  {
    assert forall k :: 0 <= k < i ==> log[..i][k] == log[k];
    forall j: nat
      ensures FsrEnabledAt(log, j, i) <==> FsrEnabledAt(log[..i], j, i)
    {
    }
  }

  lemma {:induction false} FsrMeaning(log: seq<Event>)
    ensures Judge(log).world.fsr != Stopped <==> FsrOnAt(log, |log|)
  {
    if log != [] {
      var n, e := |log| - 1, log[|log| - 1];
      FsrMeaning(log[..n]);
      FsrOnIsLocal(log, n);
      var turns := (e.FsrConfigured? && e.ok) || e.FsrProxyDestroyed?;
      assert forall j: nat :: j < n ==> (FsrEnabledAt(log, j, |log|) <==> FsrEnabledAt(log, j, n) && !turns);
      assert FsrEnabledAt(log, n, |log|) <==> e == FsrConfigured(true, true);
    }
  }

  lemma DirtyIsLocal(log: seq<Event>, j: nat, i: nat)
    requires i <= |log|
    ensures DirtySince(log, j, i) <==> DirtySince(log[..i], j, i)
  {
    var front := log[..i];
    assert forall k :: 0 <= k < i ==> front[k] == log[k];
    forall k: nat | k < i
      ensures FsrOnAt(log, k) <==> FsrOnAt(front, k)
    {
      FsrOnIsLocal(log, k);
      FsrOnIsLocal(front, k);
      assert front[..k] == log[..k];
    }
    if j < i {
      forall c: nat
        ensures LiveSince(log, c, j, FsrChain) <==> LiveSince(front, c, j, FsrChain)
      {
        LivenessIsLocal(log, j, c, FsrChain);
        LivenessIsLocal(front, j, c, FsrChain);
        assert front[..j] == log[..j];
      }
    }
  }

  lemma {:induction false} ResidueMeaning(log: seq<Event>)
    ensures Judge(log).world.residue == Dirty <==> exists j :: DirtySince(log, j, |log|)
  {
    if log != [] {
      var n := |log| - 1;
      var front, e := log[..n], log[n];
      ResidueMeaning(front);
      WorldMeaning(front, FsrChain);
      FsrMeaning(front);
      FsrOnIsLocal(log, n);
      forall j: nat
        ensures j < n ==> (DirtySince(log, j, |log|)
                           <==> DirtySince(front, j, n) && !EndsChain(e) && (e.Presented? && e.ok ==> FsrOnAt(log, n)))
        ensures DirtySince(front, j, n) ==> j < n
      {
        DirtyIsLocal(log, j, n);
      }
      forall c: nat
        ensures LiveSince(log, c, n, FsrChain) <==> LiveSince(front, c, n, FsrChain)
      {
        LivenessIsLocal(log, n, c, FsrChain);
      }
      assert DirtySince(log, n, |log|)
             <==> e == FsrConfigured(true, true) && exists c :: LiveSince(log, c, n, FsrChain);
    }
  }

  /** FSR went off at o, and no Present has succeeded since. */
  ghost predicate OffNotShown(log: seq<Event>, o: nat) {
    o < |log| && log[o] == FsrConfigured(false, true) && forall k :: o < k < |log| ==> !(log[k].Presented? && log[k].ok)
  }

  /** A proxy that is dirty with FSR off owes its image to an Off since which none was shown. */
  lemma {:induction false} DirtyCause(log: seq<Event>)
    ensures Judge(log).world.residue == Dirty && Judge(log).world.fsr == Stopped ==> exists o :: OffNotShown(log, o)
  {
    if log != [] {
      var n := |log| - 1;
      var front, e := log[..n], log[n];
      DirtyCause(front);
      if e == FsrConfigured(false, true) {
        assert OffNotShown(log, n);
      } else if o: nat :| OffNotShown(front, o) {
        if !(e.Presented? && e.ok) {
          assert OffNotShown(log, o);
        }
      }
    }
  }

  lemma {:induction false} LifeMeaning(log: seq<Event>)
    ensures Judge(log).world.life == HasFailed <==> RefusedSinceCreation(log, |log|)
  {
    if log != [] {
      var n := |log| - 1;
      LifeMeaning(log[..n]);
      forall r: nat
        ensures r < n ==> (FsrRefused(log, r, n) <==> FsrRefused(log[..n], r, n))
        ensures r < n ==> (FsrRefused(log, r, |log|) <==> FsrRefused(log, r, n) && !log[n].ChainCreated?)
      {
        RefusalIsLocal(log, r, n);
      }
      assert FsrRefused(log, n, |log|) <==> (log[n].FsrConfigured? || log[n].FsrWaited?) && !log[n].ok;
    }
  }

  lemma RefusalIsLocal(log: seq<Event>, r: nat, i: nat)
    requires i <= |log|
    ensures FsrRefused(log, r, i) <==> FsrRefused(log[..i], r, i)
  {
  }

  /** The option is stuck exactly while a refused Off still tells. */
  lemma {:induction false} FsrStuckMeaning(log: seq<Event>)
    ensures Judge(log).world.fsr == Stuck <==> FsrOffLingersAt(log, |log|)
  {
    if log != [] {
      var n, e := |log| - 1, log[|log| - 1];
      FsrStuckMeaning(log[..n]);
      FsrMeaning(log[..n]);
      FsrOnIsLocal(log, n);
      var turns := (e.FsrConfigured? && e.ok) || e.FsrProxyDestroyed?;
      forall j: nat
        ensures j < n ==> (RefusedFsrOff(log, j, n) <==> RefusedFsrOff(log[..n], j, n))
        ensures j < n ==> (RefusedFsrOff(log, j, |log|) <==> RefusedFsrOff(log, j, n) && !turns)
      {
        RefusedFsrOffIsLocal(log, j, n);
      }
      assert RefusedFsrOff(log, n, |log|) <==> e == FsrConfigured(false, false) && FsrOnAt(log, n);
    }
  }

  lemma RefusedFsrOffIsLocal(log: seq<Event>, j: nat, i: nat)
    requires i <= |log|
    ensures RefusedFsrOff(log, j, i) <==> RefusedFsrOff(log[..i], j, i)
  {
    if j < i {
      FsrOnIsLocal(log, j);
      FsrOnIsLocal(log[..i], j);
      assert log[..i][..j] == log[..j];
      assert forall k :: 0 <= k < i ==> log[..i][k] == log[k];
    }
  }

  lemma FsrModeIsLocal(log: seq<Event>, i: nat)
    requires i <= |log|
    ensures FsrModeAt(log, i) <==> FsrModeAt(log[..i], i)
  {
    forall m: nat
      ensures FsrModeSet(log, m, i) <==> FsrModeSet(log[..i], m, i)
    {
      assert forall k :: 0 <= k < i ==> log[..i][k] == log[k];
    }
  }

  lemma {:induction false} FsrModeMeaning(log: seq<Event>)
    ensures Judge(log).world.fsrMode <==> FsrModeAt(log, |log|)
  {
    if log != [] {
      var n, e := |log| - 1, log[|log| - 1];
      FsrModeMeaning(log[..n]);
      FsrModeIsLocal(log, n);
      assert forall m: nat :: m < n ==> (FsrModeSet(log, m, |log|) <==> FsrModeSet(log, m, n) && !e.ModeSet?);
      assert FsrModeSet(log, n, |log|) <==> e.ModeSet? && e.fsr;
    }
  }

  lemma StrayIsLocal(log: seq<Event>, r: nat, i: nat)
    requires i <= |log|
    ensures StrayEnable(log, r, i) <==> StrayEnable(log[..i], r, i)
  {
    if r < i {
      FsrModeIsLocal(log, r);
      FsrModeIsLocal(log[..i], r);
      assert log[..i][..r] == log[..r];
      assert forall k :: 0 <= k < i ==> log[..i][k] == log[k];
    }
  }

  lemma {:induction false} StrayMeaning(log: seq<Event>)
    ensures Judge(log).world.stray <==> StrayAt(log, |log|)
  {
    if log != [] {
      var n, e := |log| - 1, log[|log| - 1];
      StrayMeaning(log[..n]);
      FsrModeMeaning(log[..n]);
      FsrModeIsLocal(log, n);
      forall r: nat
        ensures r < n ==> (StrayEnable(log, r, n) <==> StrayEnable(log[..n], r, n))
        ensures r < n ==>
                  (StrayEnable(log, r, |log|) <==> StrayEnable(log, r, n) && !e.ModeSet? && !e.FsrProxyDestroyed?)
      {
        StrayIsLocal(log, r, n);
      }
      assert StrayEnable(log, n, |log|) <==> e == FsrConfigured(true, true) && !FsrModeAt(log, n);
    }
  }

  /** Where every exception is spared, the rule fails exactly at proxies that still owe an image after a refusal. */
  lemma QuietExactly(log: seq<Event>)
    requires SparedRule(log)
    ensures QuietRule(log) <==> NothingOwed(log)
    ensures FsrAccepted(log) ==> QuietRule(log)
  {
    if FsrAccepted(log) {
      forall i: nat, r: nat
        ensures !FsrRefused(log, r, i)
      {
      }
    }
  }

  /** One more call breaks a rule about tear-downs only by being one. */
  lemma TearDownsStep(log: seq<Event>)
    requires log != []
    ensures var n := |log| - 1;
            var dirty := log[n].FsrProxyDestroyed? && exists j :: DirtySince(log, j, n);
            && (QuietRule(log) <==> QuietRule(log[..n]) && !dirty)
            && (SparedRule(log) <==> SparedRule(log[..n]) && (dirty ==> RefusedSinceCreation(log, n)))
  {
    var n := |log| - 1;
    var front := log[..n];
    assert forall i :: 0 <= i < n ==> front[i] == log[i];
    forall i: nat, j: nat | i < n
      ensures DirtySince(log, j, i) <==> DirtySince(front, j, i)
      ensures RefusedSinceCreation(log, i) <==> RefusedSinceCreation(front, i)
    {
      DirtyIsLocal(log, j, i);
      DirtyIsLocal(front, j, i);
      RefusedIsLocal(log, i);
      RefusedIsLocal(front, i);
      assert front[..i] == log[..i];
    }
    DirtyIsPast(log, n);
    hide DirtySince, RefusedSinceCreation;
  }

  lemma DirtyIsPast(log: seq<Event>, i: nat)
    ensures forall j: nat :: DirtySince(log, j, i) ==> j < i
  {
  }

  lemma RefusedIsLocal(log: seq<Event>, i: nat)
    requires i <= |log|
    ensures RefusedSinceCreation(log, i) <==> RefusedSinceCreation(log[..i], i)
  {
    forall r: nat
      ensures FsrRefused(log, r, i) <==> FsrRefused(log[..i], r, i)
    {
      RefusalIsLocal(log, r, i);
    }
  }

  lemma {:induction false} QuietMeaning(log: seq<Event>)
    ensures Judge(log).quiet == Kept <==> QuietRule(log)
    ensures Judge(log).spared == Kept <==> SparedRule(log)
  {
    if log != [] {
      var n := |log| - 1;
      QuietMeaning(log[..n]);
      ResidueMeaning(log[..n]);
      LifeMeaning(log[..n]);
      RefusedIsLocal(log, n);
      TearDownsStep(log);
      forall j: nat
        ensures DirtySince(log, j, n) <==> DirtySince(log[..n], j, n)
      {
        DirtyIsLocal(log, j, n);
      }
      hide QuietRule, SparedRule, DirtySince, RefusedSinceCreation, Observe;
    }
  }

  lemma RefusedOffIsLocal(log: seq<Event>, j: nat, i: nat)
    requires i <= |log|
    ensures RefusedOff(log, j, i) <==> RefusedOff(log[..i], j, i)
  {
    if j < i {
      DlssOnIsLocal(log, j);
      DlssOnIsLocal(log[..i], j);
      assert log[..i][..j] == log[..j];
      assert forall k :: 0 <= k < i ==> log[..i][k] == log[k];
    }
  }

  /** One more call keeps a refused Off in force, settles it, or is one. */
  lemma OffLingersStep(log: seq<Event>)
    requires log != []
    ensures var n, e := |log| - 1, log[|log| - 1];
            OffLingersAt(log, |log|) <==>
              if e.DlssGSet? && e.ok then false
              else OffLingersAt(log[..n], n) || (e == DlssGSet(false, false) && DlssOnAt(log[..n], n))
  {
    var n, e := |log| - 1, log[|log| - 1];
    DlssOnIsLocal(log, n);
    forall j: nat
      ensures RefusedOff(log, j, n) <==> RefusedOff(log[..n], j, n)
      ensures j < n ==> (RefusedOff(log, j, |log|) <==> RefusedOff(log, j, n) && !(e.DlssGSet? && e.ok))
    {
      RefusedOffIsLocal(log, j, n);
    }
    assert RefusedOff(log, n, |log|) <==> e == DlssGSet(false, false) && DlssOnAt(log, n);
  }

  /** The option is stuck exactly while a refused Off still tells. */
  lemma {:induction false} StuckMeaning(log: seq<Event>)
    ensures Judge(log).world.dlss == Stuck <==> OffLingersAt(log, |log|)
  {
    if log != [] {
      StuckMeaning(log[..|log| - 1]);
      DlssMeaning(log[..|log| - 1]);
      OffLingersStep(log);
    }
  }

  /** What was said of a first image stays true as the log grows. */
  lemma FirstImagesStay(log: seq<Event>, i: nat, c: nat)
    requires log != [] && i < |log| - 1
    ensures FirstImage(log, c, i) <==> FirstImage(log[..|log| - 1], c, i)
    ensures DlssOnAt(log, i) <==> DlssOnAt(log[..|log| - 1], i)
    ensures OffLingersAt(log, i) <==> OffLingersAt(log[..|log| - 1], i)
  {
    var front := log[..|log| - 1];
    assert front[..i] == log[..i] && front[i] == log[i];
    LivenessIsLocal(log, i, c, StreamlineChain);
    LivenessIsLocal(front, i, c, StreamlineChain);
    DlssOnIsLocal(log, i);
    DlssOnIsLocal(front, i);
    forall j: nat
      ensures RefusedOff(log, j, i) <==> RefusedOff(front, j, i)
    {
      RefusedOffIsLocal(log, j, i);
      RefusedOffIsLocal(front, j, i);
    }
  }

  lemma LiveIsPast(log: seq<Event>, c: nat, i: nat, kind: ChainKind)
    requires LiveSince(log, c, i, kind)
    ensures c < i <= |log|
  {
  }

  /** The judge recognises the first images, and what DLSS-G was doing at each. */
  lemma FirstImageNow(log: seq<Event>)
    requires log != []
    ensures var n := |log| - 1;
            var w := Judge(log[..n]).world;
            && (FirstImageCall(w, log[n]) <==> exists c :: FirstImage(log, c, n))
            && (w.dlss != Stopped <==> DlssOnAt(log, n)) && (w.dlss == Stuck <==> OffLingersAt(log, n))
  {
    var n := |log| - 1;
    var front := log[..n];
    WorldMeaning(front, StreamlineChain);
    OneLiveChain(front, StreamlineChain);
    DlssMeaning(front);
    StuckMeaning(front);
    DlssOnIsLocal(log, n);
    forall c: nat
      ensures LiveSince(log, c, n, StreamlineChain) <==> LiveSince(front, c, n, StreamlineChain)
      ensures PresentedBetween(log, c, n) <==> PresentedBetween(front, c, n)
      ensures RefusedOff(log, c, n) <==> RefusedOff(front, c, n)
    {
      LivenessIsLocal(log, n, c, StreamlineChain);
      RefusedOffIsLocal(log, c, n);
    }
    hide Judge, LiveSince, PresentedBetween, DlssOnAt, RefusedOff;
    if c: nat :| FirstImage(log, c, n) {
      assert LiveSince(log, c, n, StreamlineChain) && !PresentedBetween(log, c, n);
      assert LiveSince(front, c, n, StreamlineChain);
    }
    if FirstImageCall(Judge(front).world, log[n]) {
      var c: nat :| LiveSince(front, c, n, StreamlineChain);
      assert LiveSince(log, c, n, StreamlineChain) && !PresentedBetween(front, c, n);
      assert FirstImage(log, c, n) by {
        LiveIsPast(log, c, n, StreamlineChain);
      }
    }
  }

  /** One more call breaks a rule about first images only by being one. */
  lemma ImageRulesStep(log: seq<Event>)
    requires log != []
    ensures var n := |log| - 1;
            var first := exists c :: FirstImage(log, c, n);
            && (CoveredRule(log) <==> CoveredRule(log[..n]) && (first ==> !DlssOnAt(log, n)))
            && (ExcusedRule(log) <==> ExcusedRule(log[..n]) && (first && DlssOnAt(log, n) ==> OffLingersAt(log, n)))
  {
    var n := |log| - 1;
    ImagesAreInside(log);
    ImagesAreInside(log[..n]);
    hide FirstImage, DlssOnAt, OffLingersAt;
    forall i: nat, c: nat | i < n
      ensures FirstImage(log, c, i) <==> FirstImage(log[..n], c, i)
      ensures DlssOnAt(log, i) <==> DlssOnAt(log[..n], i)
      ensures OffLingersAt(log, i) <==> OffLingersAt(log[..n], i)
    {
      FirstImagesStay(log, i, c);
    }
  }

  lemma {:induction false} CoveredMeaning(log: seq<Event>)
    ensures Judge(log).covered == Kept <==> CoveredRule(log)
    ensures Judge(log).excused == Kept <==> ExcusedRule(log)
  {
    if log != [] {
      CoveredMeaning(log[..|log| - 1]);
      FirstImageNow(log);
      ImageRulesStep(log);
      hide CoveredRule, ExcusedRule, FirstImage, FirstImageCall, DlssOnAt, OffLingersAt, Observe;
    }
  }

  lemma ImagesAreInside(log: seq<Event>)
    ensures forall i: nat, c: nat :: FirstImage(log, c, i) ==> i < |log|
  {
  }

  /** Where every exception is excused, the rule fails exactly at the excuses. */
  lemma CoveredExactly(log: seq<Event>)
    requires ExcusedRule(log)
    ensures CoveredRule(log) <==> NoLingeringOff(log)
  {
    forall i: nat | OffLingersAt(log, i)
      ensures DlssOnAt(log, i)
    {
      LingeringIsOn(log, i);
    }
  }

  lemma LingeringIsOn(log: seq<Event>, i: nat)
    requires OffLingersAt(log, i)
    ensures DlssOnAt(log, i)
  {
    var j: nat :| RefusedOff(log, j, i);
    var o: nat :| DlssEnabledAt(log, o, j);
    assert DlssEnabledAt(log, o, i);
  }

  /** A swapchain is created only once. */
  lemma OneLiveChain(log: seq<Event>, kind: ChainKind)
    ensures forall c, d :: LiveSince(log, c, |log|, kind) && LiveSince(log, d, |log|, kind) ==> c == d
  {
    forall c: nat, d: nat | LiveSince(log, c, |log|, kind) && LiveSince(log, d, |log|, kind)
      ensures c == d
    {
      assert EndsChain(log[c]) && EndsChain(log[d]);
    }
  }

  lemma {:induction false} UncappedMeaning(log: seq<Event>)
    ensures Judge(log).uncapped == Kept <==> UncappedRule(log)
  {
    if log != [] {
      var n := |log| - 1;
      var front, e := log[..n], log[n];
      UncappedMeaning(front);
      WorldMeaning(front, StreamlineChain);
      forall i: nat, c: nat | i <= n
        ensures LiveSince(log, c, i, StreamlineChain) <==> LiveSince(front, c, i, StreamlineChain)
      {
        LivenessIsLocal(log, i, c, StreamlineChain);
        LivenessIsLocal(front, i, c, StreamlineChain);
        assert front[..i] == log[..i];
      }
      assert forall i :: 0 <= i < n ==> front[i] == log[i];
    }
  }

  predicate FsrAccepted(log: seq<Event>) {
    forall i :: 0 <= i < |log| && (log[i].FsrConfigured? || log[i].FsrWaited?) ==> log[i].ok
  }

  predicate DlssOffAccepted(log: seq<Event>) {
    forall i :: 0 <= i < |log| && log[i].DlssGSet? && !log[i].on ==> log[i].ok
  }

  predicate SwitchesSucceeded(log: seq<Event>) {
    forall i :: 0 <= i < |log| && log[i].ModeSet? ==> log[i].ok
  }

  lemma {:induction false} FailuresMeaning(log: seq<Event>)
    ensures Judge(log).dlssOffCalls == NeverFailed <==> DlssOffAccepted(log)
    ensures Judge(log).switches == NeverFailed <==> SwitchesSucceeded(log)
  {
    if log != [] {
      var n := |log| - 1;
      FailuresMeaning(log[..n]);
      assert forall i :: 0 <= i < n ==> log[..n][i] == log[i];
    }
  }
}

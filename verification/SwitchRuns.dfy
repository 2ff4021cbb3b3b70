/**
 Whole runs of the switch application: what every run guarantees, what a request on a steady machine is
 owed, and three concrete runs on which a rule that looks unconditional fails.
 */
module SwitchRuns {
  import opened FgPolicy
  import opened VendorLog
  import opened SwitchApp

  /** The program up to the end of its message loop. */
  method RunSession(cfg: Config, start: Frame, inputs: seq<Input>) returns (app: App)
    ensures fresh(app) && app.Inv() && (inputs != [] ==> app.Answered(inputs[|inputs| - 1]))
    ensures app.running ==> app.armed
    // the mode tells the truth about DLSS always, and about FSR exactly unless FSR was enabled in another mode
    ensures app.dlssEnabled ==> app.mode == Dlss
    ensures app.fsrEnabled && app.mode != Fsr <==> StrayAt(app.log.calls, |app.log.calls|)
    ensures app.fsrEnabled && app.mode != Fsr ==> RefusedSinceCreation(app.log.calls, |app.log.calls|)
    ensures !(app.switchPending && app.togglePending)
    // what the vendor runtimes saw
    ensures QuietRule(app.log.calls) <==> NothingOwed(app.log.calls)
    ensures FsrAccepted(app.log.calls) ==> QuietRule(app.log.calls)
    ensures DlssOffAccepted(app.log.calls) ==> CoveredRule(app.log.calls)
    ensures CoveredRule(app.log.calls) <==> NoLingeringOff(app.log.calls)
    ensures SwitchesSucceeded(app.log.calls) ==> UncappedRule(app.log.calls)
  {
    hide Judge;
    app := new App(cfg);
    app.Startup(start);
    app.Play(inputs);
    FailuresMeaning(app.log.calls);
    LifeMeaning(app.log.calls);
    StrayMeaning(app.log.calls);
    QuietMeaning(app.log.calls);
    QuietExactly(app.log.calls);
    CoveredMeaning(app.log.calls);
    CoveredExactly(app.log.calls);
    UncappedMeaning(app.log.calls);
  }

  /**
   A whole run of the program, from its globals' initial values to its exit: whatever fails, DLSS-G is only
   ever enabled on a live Streamline swapchain that has presented, and Reflex only ever dropped under none. A
   Streamline swapchain's first image has DLSS-G off, unless DLSS-G refused to go off and no option was accepted
   since. The rule about quiet tear-downs is for the session: the clean-up at exit destroys whatever FSR proxy is
   left without showing another image.
   */
  method RunProgram(cfg: Config, start: Frame, inputs: seq<Input>, end: Frame)
    returns (session: seq<Event>, all: seq<Event>)
    ensures session <= all && OrderingRules(all)
    ensures QuietRule(session) <==> NothingOwed(session)
    ensures FsrAccepted(session) ==> QuietRule(session)
    ensures CoveredRule(all) <==> NoLingeringOff(all)
    ensures DlssOffAccepted(session) ==> CoveredRule(all)
    ensures SwitchesSucceeded(session) ==> UncappedRule(all)
  {
    hide Judge;
    var app := RunSession(cfg, start, inputs);
    session := app.log.calls;
    app.Cleanup(end);
    all := app.log.calls;
    LawfulMeaning(all);
    UncappedMeaning(session);
    UncappedMeaning(all);
    CoveredMeaning(session);
    CoveredMeaning(all);
    CoveredExactly(all);
  }

  /**
   From any state a session can reach on a steady machine whose Streamline exports its factory, any request
   is met within three frames in which nothing fails.
   */
  method RunThenRequest(cfg: Config, start: Frame, inputs: seq<Input>, target: Mode, f1: Frame, f2: Frame, f3: Frame)
    returns (app: App)
    requires start.ask(SlFactoryExport) && OnMachine(inputs, start)
    requires Granted(f1) && Granted(f2) && Granted(f3)
    ensures fresh(app) && app.Inv()
    ensures app.running ==> app.Settled(target)
  {
    hide Judge, App.Inv, App.SameVendor, App.Attainable, App.Settled, App.Idle, Granted, OnMachine;
    app := new App(cfg);
    app.Startup(start);
    if !app.running {
      return;
    }
    app.Play(inputs);
    if !app.running {
      return;
    }
    app.RequestMode(target, true);
    app.VendorAttains(target, start);
    app.CompleteRequest(f1, f2, f3);
  }

  // ---------------------------------------------------------------------------------------------
  // Suspending and resuming
  // ---------------------------------------------------------------------------------------------

  /** What the key of a mode asks the vendor: to run on, or to pause. */
  function Order(target: Mode, run: bool): Event {
    if target == Fsr then FsrConfigured(run, true) else DlssGSet(run, true)
  }

  /** The flags while the mode is suspended: DLSS-G is off then, and FSR stays enabled. */
  function Paused(target: Mode): Flags {
    if target == Fsr then Flags(true, true, false, false) else Flags(false, false, false, true)
  }

  function Active(target: Mode): Flags {
    if target == Fsr then Flags(true, false, false, false) else Flags(false, false, true, false)
  }

  function Accepts(target: Mode, f: Frame): bool {
    f.ask(if target == Fsr then FsrToggle else DlssToggle)
  }

  lemma ToggleFlips(app: App, f: Frame)
    requires app.mode != Off && Accepts(app.mode, f)
    ensures app.FlagsNow() == Active(app.mode) ==>
              app.Toggled(app.mode, f) == Paused(app.mode) && [Order(app.mode, false)] <= app.ToggleCalls(app.mode, f)
    ensures app.FlagsNow() == Paused(app.mode) ==>
              app.Toggled(app.mode, f) == Active(app.mode) && [Order(app.mode, true)] <= app.ToggleCalls(app.mode, f)
  {
  }

  lemma UnaskedStays(app: App, f: Frame)
    requires app.Inv() && app.togglePending
    ensures app.FrameMode(f) == app.mode
  {
  }

  /** The mode's key, and the frame after it: what was active is paused, what was paused active. */
  method PressAndShow(app: App, key: Input, f: Frame)
    requires app.Inv() && app.running && app.armed && !app.switchPending && (key.Key2? || key.Key3?)
    requires app.mode == app.KeyMode(key) && Accepts(app.mode, f)
    requires app.FlagsNow() in {Active(app.mode), Paused(app.mode)}
    modifies app
    ensures app.Inv() && app.armed && app.mode == old(app.mode) && !app.switchPending && !app.togglePending
    ensures app.running == (f.ask(PresentOk) || !f.ask(DeviceRemoved))
    ensures var resume := old(app.FlagsNow()) == Paused(app.mode);
            && app.FlagsNow() == (if resume then Active(app.mode) else Paused(app.mode))
            && old(app.log.calls) + [Order(app.mode, resume)] <= app.log.calls
  {
    hide Judge, App.Inv, App.ShowCalls, App.Toggled, App.ToggleCalls, App.ModeAfter, App.FrameMode;
    app.Step(key);
    UnaskedStays(app, f);
    ToggleFlips(app, f);
    app.Step(NextFrame(f));
  }

  /**
   From any state a session can reach with FSR or DLSS active and no switch asked for: the mode's key suspends it
   with the next frame, and the key once more resumes it.
   */
  method SuspendAndResume(app: App, key: Input, first: Frame, second: Frame) returns (paused: Flags, half: seq<Event>)
    requires app.Inv() && app.running && app.armed && !app.switchPending && (key.Key2? || key.Key3?)
    requires app.mode == app.KeyMode(key) && app.FlagsNow() == Active(app.mode)
    requires Accepts(app.mode, first) && Accepts(app.mode, second) && first.ask(PresentOk)
    modifies app
    ensures app.Inv() && app.mode == old(app.mode)
    ensures paused == Paused(app.mode) && old(app.log.calls) + [Order(app.mode, false)] <= half
    ensures app.FlagsNow() == Active(app.mode) && half + [Order(app.mode, true)] <= app.log.calls
  {
    hide Judge, App.Inv, App.FlagsNow, Accepts, Order;
    PressAndShow(app, key, first);
    paused, half := app.FlagsNow(), app.log.calls;
    PressAndShow(app, key, second);
  }

  // ---------------------------------------------------------------------------------------------
  // Three runs
  // ---------------------------------------------------------------------------------------------

  function Answer(c: Call): bool {
    !(c == DeviceRemoved || c == AutoDue || c == FsrStressDue || c == DlssStressDue)
  }

  /** Everything succeeds. */
  const SMOOTH := Frame(Answer, 1)

  /** Everything but one call succeeds. */
  function Refusing(bad: Call): Frame {
    Frame((c: Call) => c != bad && Answer(c), 1)
  }

  const PLAIN_CONFIG := Config(1, false, false, false, false, false, false, false, false)

  /** An application whose message loop is about to begin. */
  method Begin() returns (app: App)
    ensures fresh(app) && app.Inv() && app.Idle() && app.running && app.chain && app.armed && app.cfg == PLAIN_CONFIG
    ensures app.SameVendor(SMOOTH) && !app.usesSl && !app.swapCtx && !app.dlssEnabled && !app.fsrEnabled
    ensures !app.slInitialized
  {
    hide Judge, App.Inv, App.Idle, App.SameVendor;
    app := new App(PLAIN_CONFIG);
    app.Startup(SMOOTH);
  }

  lemma Smooth()
    ensures Granted(SMOOTH) && SMOOTH.ask(FsrLeave) && SMOOTH.ask(SlFactoryExport)
  {
  }

  lemma ChainHasDevice(app: App)
    requires app.Inv() && app.chain
    ensures app.device != 0
  {
  }

  lemma RefusedDrain(app: App)
    requires app.stage == PassthroughPresented
    ensures !app.Departs(Off, Refusing(FsrWait))
  {
  }

  lemma RefusedStop(app: App)
    requires app.fsrEnabled && app.stage != PassthroughPresented
    ensures !app.Departs(Off, Refusing(FsrLeave)) && !Refusing(FsrLeave).ask(FsrLeave)
    ensures SameMachine(Refusing(FsrLeave), SMOOTH)
  {
  }

  lemma ImageKeepsResidue(v: Verdict, sync: nat)
    requires v.world.residue == Dirty && v.world.fsr != Stopped
    ensures var w := JudgeStep(v, Presented(true, sync)).world; w == v.world.(image := w.image)
  {
  }

  lemma OnlyRefuses(bad: Call, c: Call)
    ensures Refusing(bad).ask(c) <==> c != bad && Answer(c)
  {
  }

  lemma RefusedLoad()
    ensures !Refusing(SlLoad).ask(SlLoad) && Refusing(SlLoad).ask(FsrRollback)
  {
    OnlyRefuses(SlLoad, SlLoad);
    OnlyRefuses(SlLoad, FsrRollback);
    hide Refusing;
  }

  lemma UnloadedRollsBack(app: App, f: Frame)
    requires app.stage == PassthroughPresented && !app.slInitialized && !f.ask(SlLoad)
    ensures app.RollsBack(Dlss, f)
  {
  }

  /** FSR is running on its own proxy. */
  ghost predicate FsrRuns(app: App)
    reads app
  {
    && app.Inv() && app.running && app.chain && app.cfg == PLAIN_CONFIG
    && app.Settled(Fsr) && app.swapCtx && !app.slInitialized && app.SameVendor(SMOOTH)
    && app.log.verdict.world.residue == Dirty && app.log.verdict.world.fsr != Stopped
  }

  method StartFsr() returns (app: App)
    ensures fresh(app) && FsrRuns(app)
  {
    hide Judge, JudgeStep, Append, App.Core, App.CanEnter, App.Departs, App.SameVendor, App.Inv, SMOOTH, Granted;
    Smooth();
    app := Begin();
    ChainHasDevice(app);
    app.RequestMode(Fsr, true);
    app.GrantedEnters(Fsr, SMOOTH);
    var _ := app.SwitchMode(Fsr, SMOOTH);
  }

  method ShowFsr(app: App)
    requires FsrRuns(app)
    modifies app
    ensures FsrRuns(app)
  {
    hide Judge, JudgeStep, Append, App.Inv, SMOOTH, Granted, App.SameVendor, App.MiddleCalls, App.MiddleFlags,
         App.MiddleRequests, App.ShowCalls;
    Smooth();
    ImageKeepsResidue(app.log.verdict, app.SyncInterval());
    app.FinishFrame(SMOOTH);
  }

  method AskFsrToLeave(app: App)
    requires FsrRuns(app)
    modifies app
    ensures app.Inv() && app.running && app.chain && app.switchPending && !app.togglePending
    ensures !app.fsrEnabled && !app.slInitialized && app.stage == PresentPending && app.mode == Fsr
  {
    hide Judge, JudgeStep, Append, App.Core, App.CanEnter, App.CanPrepare, App.Departs, App.Replaced,
         App.TearsDownDirty, App.SameVendor, App.CanReachDlss, App.Exported, SMOOTH, Granted, App.Inv;
    Smooth();
    app.RequestMode(Off, true);
    var _ := app.SwitchMode(Off, SMOOTH);
  }

  /** FSR was asked to stop and has shown its passthrough image. */
  method StageExit(app: App)
    requires FsrRuns(app)
    modifies app
    ensures app.Inv() && app.running && app.chain && app.switchPending && !app.togglePending
    ensures !app.fsrEnabled && !app.slInitialized && app.stage == PassthroughPresented && app.mode == Fsr
  {
    hide Judge, JudgeStep, Append, App.SameVendor, SMOOTH, Granted, App.Inv, App.MiddleCalls, App.MiddleFlags,
         App.MiddleRequests, App.ShowCalls;
    Smooth();
    AskFsrToLeave(app);
    app.FinishFrame(SMOOTH);
  }

  /** The drain refuses, OFF is entered all the same, and the stage stays behind. */
  method FailDrain(app: App)
    requires app.Inv() && app.running && app.chain && app.switchPending && !app.togglePending
    requires !app.fsrEnabled && !app.slInitialized && app.stage == PassthroughPresented && app.mode == Fsr
    modifies app
    ensures app.Inv() && app.running && app.chain && !app.togglePending
    ensures !app.fsrEnabled && !app.slInitialized && app.stage == PassthroughPresented && app.mode == Off
  {
    hide Judge, JudgeStep, Append, App.Core, App.CanEnter, App.CanPrepare, App.Departs, App.Replaced,
         App.TearsDownDirty, App.SameVendor, App.CanReachDlss, App.Exported, SMOOTH, Refusing, Granted, App.Inv,
         App.MiddleCalls, App.MiddleFlags, App.MiddleRequests, App.ShowCalls;
    Smooth();
    RefusedDrain(app);
    var _ := app.SwitchMode(Off, Refusing(FsrWait));
    app.FinishFrame(SMOOTH);
  }

  /**
   Mode coherence fails: the drain refuses at the commit of an FSR exit to OFF, which leaves the stage behind;
   the next DLSS request cannot load Streamline and "rolls back" to an FSR mode that is no longer current.
   */
  method CoherenceFails() returns (app: App)
    ensures app.running && app.mode == Off && app.fsrEnabled
  {
    hide Judge, JudgeStep, Append, App.Core, App.CanEnter, App.CanPrepare, App.Departs, App.Replaced,
         App.TearsDownDirty, App.SameVendor, App.CanReachDlss, App.Exported, SMOOTH, Refusing, Granted, App.Inv;
    app := StartFsr();
    ShowFsr(app);
    StageExit(app);
    FailDrain(app);
    app.RequestMode(Dlss, true);
    RefusedLoad();
    UnloadedRollsBack(app, Refusing(SlLoad));
    var _ := app.SwitchMode(Dlss, Refusing(SlLoad));
  }

  /** FSR still runs behind OFF. */
  ghost predicate FsrRunsOn(app: App)
    reads app
  {
    && app.Inv() && app.running && app.chain && app.Idle() && !app.fsrEnabled && app.SameVendor(SMOOTH)
    && app.log.verdict.world.residue == Dirty && app.log.verdict.world.fsr != Stopped
  }

  method ShowResidue(app: App)
    requires FsrRunsOn(app)
    modifies app
    ensures FsrRunsOn(app)
  {
    hide Judge, JudgeStep, Append, App.Inv, App.SameVendor, SMOOTH, Granted, App.MiddleCalls, App.MiddleFlags,
         App.MiddleRequests, App.ShowCalls;
    Smooth();
    ImageKeepsResidue(app.log.verdict, app.SyncInterval());
    app.FinishFrame(SMOOTH);
  }

  method RefuseToStop(app: App)
    requires FsrRuns(app)
    modifies app
    ensures app.Inv() && app.running && app.chain && app.Idle() && !app.fsrEnabled && app.SameVendor(SMOOTH)
    ensures app.log.verdict.world.residue == Dirty
  {
    hide Judge, JudgeStep, Append, App.Core, App.CanEnter, App.CanPrepare, App.Departs, App.Replaced,
         App.TearsDownDirty, App.CanReachDlss, App.Exported, SMOOTH, Refusing, Granted, App.Inv;
    Smooth();
    app.RequestMode(Off, true);
    RefusedStop(app);
    var _ := app.SwitchMode(Off, Refusing(FsrLeave));
    ShowResidue(app);
  }

  /** A proxy is torn down dirty: FSR refuses to be disabled on the way to OFF, and DLSS is asked for next. */
  method QuietFails() returns (app: App)
    ensures app.running && app.log.verdict.quiet == Broken
  {
    hide Judge, JudgeStep, Append, App.Core, App.CanEnter, App.CanPrepare, App.Departs, App.SameVendor,
         App.CanReachDlss, App.Exported, SMOOTH, Granted, App.Inv;
    app := StartFsr();
    ShowFsr(app);
    RefuseToStop(app);
    app.RequestMode(Dlss, true);
    Smooth();
    app.VendorAttains(Dlss, SMOOTH);
    ChainHasDevice(app);
    app.GrantedEnters(Dlss, SMOOTH);
    var _ := app.SwitchMode(Dlss, SMOOTH);
  }

  /** What the third run keeps between frames. */
  ghost predicate Between(app: App)
    reads app
  {
    && app.Inv() && app.running && app.chain && app.cfg == PLAIN_CONFIG && app.SameVendor(SMOOTH)
    && !app.togglePending && !app.fsrEnabled
  }

  lemma RefusedOff(app: App)
    requires app.dlssEnabled
    ensures !app.Departs(Off, Refusing(DlssOff)) && !Refusing(DlssOff).ask(DlssOff)
    ensures SameMachine(Refusing(DlssOff), SMOOTH)
  {
  }

  lemma ImageKeepsPower(v: Verdict, sync: nat)
    ensures JudgeStep(v, Presented(true, sync)).world.dlss == v.world.dlss
  {
  }

  method ShowReplacement(app: App)
    requires Between(app) && app.stage == ReplacementPresentPending
    requires app.switchPending && app.usesSl && app.mode == Off
    modifies app
    ensures Between(app) && app.stage == ReplacementPresented && app.switchPending && app.usesSl && app.mode == Off
    ensures old(app.log.verdict.world.dlss) == Stuck ==> app.log.verdict.covered == Broken
  {
    hide Judge, JudgeStep, Append, App.Inv, App.SameVendor, SMOOTH, Granted, App.MiddleCalls, App.MiddleFlags,
         App.MiddleRequests, App.ShowCalls;
    Smooth();
    app.FinishFrame(SMOOTH);
  }

  /** A replacement swapchain is staged and then shown. */
  method StageDlss(app: App)
    requires Between(app) && app.Idle() && !app.usesSl && !app.dlssEnabled
    modifies app
    ensures Between(app) && app.stage == ReplacementPresented && app.switchPending && app.usesSl && app.mode == Off
    ensures old(app.log.verdict.world.dlss) == Stuck ==> app.log.verdict.covered == Broken
  {
    hide Judge, JudgeStep, Append, App.Core, App.CanEnter, App.CanPrepare, App.Departs, App.TearsDownDirty,
         App.FsrCoherent, App.SameVendor, App.CanReachDlss, App.Exported, SMOOTH, Granted, App.Inv;
    Smooth();
    app.RequestMode(Dlss, true);
    app.VendorAttains(Dlss, SMOOTH);
    ChainHasDevice(app);
    app.GrantedEnters(Dlss, SMOOTH);
    var _ := app.SwitchMode(Dlss, SMOOTH);
    ShowReplacement(app);
  }

  lemma ReplacementIsNotFsr(app: App)
    requires app.Inv() && app.stage == ReplacementPresented && app.usesSl
    ensures !app.FromFsr()
  {
  }

  /** DLSS-G runs on its Streamline swapchain. */
  ghost predicate DlssRuns(app: App)
    reads app
  {
    Between(app) && app.Settled(Dlss) && app.usesSl && app.log.verdict.world.dlss == Running
  }

  method ActivateDlss(app: App)
    requires Between(app) && app.stage == ReplacementPresented && app.switchPending && app.usesSl && app.mode == Off
    modifies app
    ensures DlssRuns(app)
  {
    hide Judge, JudgeStep, Append, App.Core, App.CanEnter, App.CanPrepare, App.Departs, App.TearsDownDirty,
         App.SameVendor, App.CanReachDlss, App.Exported, SMOOTH, Granted, App.Inv;
    Smooth();
    ReplacementIsNotFsr(app);
    app.VendorAttains(Dlss, SMOOTH);
    ChainHasDevice(app);
    app.GrantedEnters(Dlss, SMOOTH);
    var _ := app.SwitchMode(Dlss, SMOOTH);
  }

  method ActivateShown(app: App)
    requires Between(app) && app.stage == ReplacementPresented && app.switchPending && app.usesSl && app.mode == Off
    modifies app
    ensures DlssRuns(app)
  {
    hide Judge, JudgeStep, Append, App.SameVendor, SMOOTH, Granted, App.Inv, App.MiddleCalls, App.MiddleFlags,
         App.MiddleRequests, App.ShowCalls;
    Smooth();
    ActivateDlss(app);
    ImageKeepsPower(app.log.verdict, app.SyncInterval());
    app.FinishFrame(SMOOTH);
  }

  method ShowIdle(app: App)
    requires Between(app) && app.Idle() && !app.dlssEnabled
    modifies app
    ensures Between(app) && app.Idle() && !app.dlssEnabled
    ensures app.usesSl == old(app.usesSl) && app.log.verdict.world.dlss == old(app.log.verdict.world.dlss)
  {
    hide Judge, JudgeStep, Append, App.SameVendor, SMOOTH, Granted, App.Inv, App.MiddleCalls, App.MiddleFlags,
         App.MiddleRequests, App.ShowCalls;
    Smooth();
    ImageKeepsPower(app.log.verdict, app.SyncInterval());
    app.FinishFrame(SMOOTH);
  }

  /** DLSS-G refuses to go off; OFF is entered on the Streamline swapchain, and a second request replaces it. */
  method RefuseOff(app: App)
    requires DlssRuns(app)
    modifies app
    ensures Between(app) && app.Idle() && !app.dlssEnabled && app.log.verdict.world.dlss == Stuck
  {
    hide Judge, JudgeStep, Append, App.Core, App.CanEnter, App.CanPrepare, App.Departs, App.TearsDownDirty,
         App.Replaced, App.FsrCoherent, App.CanReachDlss, App.Exported, SMOOTH, Refusing, Granted, App.Inv;
    Smooth();
    app.RequestMode(Off, true);
    RefusedOff(app);
    var _ := app.SwitchMode(Off, Refusing(DlssOff));
    ShowIdle(app);
  }

  method AskOffAgain(app: App)
    requires Between(app) && app.Idle() && !app.dlssEnabled && app.log.verdict.world.dlss == Stuck
    modifies app
    ensures Between(app) && app.Idle() && !app.dlssEnabled && !app.usesSl && app.log.verdict.world.dlss == Stuck
  {
    hide Judge, JudgeStep, Append, App.Core, App.CanEnter, App.CanPrepare, App.Departs, App.TearsDownDirty,
         App.Replaced, App.FsrCoherent, App.CanReachDlss, App.Exported, SMOOTH, Refusing, Granted, App.Inv;
    Smooth();
    app.RequestMode(Off, true);
    ChainHasDevice(app);
    app.GrantedEnters(Off, SMOOTH);
    var _ := app.SwitchMode(Off, SMOOTH);
    ShowIdle(app);
  }

  /** A Streamline swapchain has its first image with DLSS-G on: an Off call was refused before. */
  method CoveredFails() returns (app: App)
    ensures app.running && app.log.verdict.covered == Broken
  {
    hide Judge, JudgeStep, Append, App.Inv, App.SameVendor, SMOOTH;
    app := Begin();
    StageDlss(app);
    ActivateShown(app);
    RefuseOff(app);
    AskOffAgain(app);
    StageDlss(app);
  }
}

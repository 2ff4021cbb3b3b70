/**
 The frame-generation switch protocol of the DX12 test application. Every global of the application is a
 field; every vendor, DXGI or Present call is a question put to the frame, whose answer is arbitrary; and
 each call is entered in a log that `VendorLog` judges without looking at the fields.
 */
module SwitchApp {
  import opened FgPolicy
  import opened VendorLog

  datatype Mode = Off | Dlss | Fsr

  datatype Owner = NativeOwner | FsrOwner

  /** The call sites whose outcome the environment decides, and the clocks that may have run out. */
  datatype Call =
    | FsrLeave | FsrWait | FsrRollback | FsrDestroy | FsrDestroyWait
    | FsrLoad | FsrContext | FsrStartup | FsrEnter
    | SlLoad | SlFactoryExport | SlSetDevice | SlSetDeviceAgain
    | ResolveSetOptions | ResolveGetState | ResolveReflex
    | DlssOff | DlssOn | ReflexOn | ReflexInit | ReflexRollback | ReflexRelease
    | Queue | Factory | FfxChain | PlainChain | FactoryAgain | PlainChainAgain
    | FsrToggle | DlssToggle | ReflexToggle | FsrStress | DlssStress | FsrRefresh | PresentOk | DeviceRemoved
    | AutoDue | FsrStressDue | DlssStressDue

  /** One frame's answers; `device` is the device D3D12CreateDevice would return, 0 when it fails. */
  datatype Frame = Frame(ask: Call -> bool, device: nat)

  /** What is enabled and what is suspended. */
  datatype Flags = Flags(fsr: bool, fsrSuspended: bool, dlss: bool, dlssSuspended: bool)

  /** What is asked for, and what the stress clocks have done. */
  datatype Requests = Requests(switch: bool, target: Mode, toggle: bool, didSuspend: bool, didOff: bool)

  datatype Input = Key1 | Key2 | Key3 | Escape | FsrPreloaded | NextFrame(f: Frame)

  /** The same device comes back from every creation, and Streamline's exports do not change. */
  predicate SameMachine(f: Frame, g: Frame) {
    f.device == g.device && f.ask(SlFactoryExport) == g.ask(SlFactoryExport)
  }

  ghost predicate OnMachine(inputs: seq<Input>, f: Frame) {
    forall k :: 0 <= k < |inputs| && inputs[k].NextFrame? ==> SameMachine(inputs[k].f, f)
  }

  lemma MachineSoFar(inputs: seq<Input>, k: nat)
    requires k < |inputs|
    ensures forall f :: OnMachine(inputs[..k + 1], f)
                        <==> OnMachine(inputs[..k], f) && (inputs[k].NextFrame? ==> SameMachine(inputs[k].f, f))
  {
  }

  datatype Config = Config(
    vsync: int,
    streamlinePreload: bool,
    fsrPreload: bool,
    fsrStartupContext: bool,
    fsrReloadRuntime: bool,
    fsrConfigureEveryFrame: bool,
    fsrStress: bool,
    dlssSuspendStress: bool,
    dlssOffStress: bool)

  predicate StagedFsrExit(stage: Stage) {
    stage == PresentPending || stage == PassthroughPresented
  }

  /** Every vendor call succeeds and no clock or device removal interferes. */
  predicate Granted(f: Frame) {
    && f.device != 0
    && forall c: Call :: f.ask(c) <==> !(c == DeviceRemoved || c == AutoDue || c == FsrStressDue || c == DlssStressDue)
  }

  function StageAfterPresent(s: Stage, presented: bool): Stage {
    if presented && s == PresentPending then PassthroughPresented
    else if presented && s == ReplacementPresentPending then ReplacementPresented
    else s
  }

  /** The vendor's answers to the calls that come before a destruction. */
  ghost function Emptied(w: World, context: bool, proxy: bool, f: Frame): World {
    if !context then w
    else
      FsrAnswer(w, false, f.ask(FsrDestroy)).(
        life := if f.ask(FsrDestroy) && (!proxy || f.ask(FsrDestroyWait)) then w.life else HasFailed)
  }

  /** The verdict after both contexts are destroyed. */
  ghost function TornDown(v: Verdict, context: bool, proxy: bool, f: Frame): Verdict {
    var w := Emptied(v.world, context, proxy, f);
    if !proxy then v.(world := w)
    else v.(world := ProxyGone(w),
            quiet := if w.residue == Dirty then Broken else v.quiet,
            spared := if w.residue == Dirty && w.life == NeverFailed then Broken else v.spared)
  }

  /** A destruction only shows in the world and, for a dirty proxy that FSR refused something, in `quiet`. */
  lemma TornDownMeans(v: Verdict, context: bool, proxy: bool, f: Frame)
    ensures var u, dirty := TornDown(v, context, proxy, f), proxy && v.world.residue == Dirty;
            && u == v.(world := u.world, quiet := u.quiet, spared := u.spared) && SameFindings(v, u)
            && u.quiet == (if dirty then Broken else v.quiet)
            && (!dirty || v.world.life == HasFailed ==> u.spared == v.spared)
            && u.world.dlss == v.world.dlss && u.world.fsrMode == v.world.fsrMode
            && u.world.residue == (if proxy then Clean else v.world.residue)
            && u.world.stray == (!proxy && v.world.stray)
            && (v.world.fsr != Running ==> u.world.fsr != Running)
            && u.world.chain == (if proxy then NoChain else v.world.chain)
            && u.world.image == (if proxy then NotShown else v.world.image)
  {
  }

  ghost predicate RulesOf(v: Verdict, dlssEnabled: bool) {
    && v.lawful == Kept && v.spared == Kept && v.excused == Kept && (v.world.dlss == Running ==> dlssEnabled)
    && (v.dlssOffCalls == NeverFailed ==> v.covered == Kept && v.world.dlss != Stuck)
    && (v.switches == NeverFailed ==> v.uncapped == Kept)
  }

  /** Nothing is held against the calls in between but, perhaps, a dirty tear-down or a refused call. */
  ghost predicate SameFindings(v: Verdict, u: Verdict) {
    u.lawful == v.lawful && u.covered == v.covered && u.excused == v.excused && u.uncapped == v.uncapped
  }

  class App {
    const cfg: Config

    var mode: Mode
    var running: bool
    var stage: Stage
    var retirePending: bool

    var pendingMode: Mode
    var switchPending: bool
    var toggleMode: Mode
    var togglePending: bool
    var armed: bool
    var manual: bool
    var autoStage: nat
    var stressDidSuspend: bool
    var stressDidOff: bool

    var fsrLoaded: bool
    var fsrInitialized: bool
    var fsrEnabled: bool
    var fsrSuspended: bool
    var fgCtx: bool
    var swapCtx: bool

    var slInitialized: bool
    var slFactoryExport: bool
    var slSetOptions: bool
    var slGetState: bool
    var slReflex: bool
    var slDeviceSet: bool
    var slBoundDevice: nat
    var dlssInitialized: bool
    var dlssEnabled: bool
    var dlssSuspended: bool
    var reflexLow: bool

    var device: nat
    var chain: bool
    var owner: Owner
    var usesSl: bool

    var log: Trace

    /** The globals' initial values. */
    constructor (cfg: Config)
      ensures this.cfg == cfg && log == NO_CALLS
      ensures mode == Off && running && stage == NoStage && !retirePending
      ensures !switchPending && pendingMode == Off && !togglePending && toggleMode == Off
      ensures !armed && !manual && autoStage == 0
      ensures !stressDidSuspend && !stressDidOff
      ensures !fsrLoaded && !fsrInitialized && !fsrEnabled && !fsrSuspended && !fgCtx && !swapCtx
      ensures !slInitialized && !slFactoryExport && !slSetOptions && !slGetState && !slReflex && !slDeviceSet
      ensures slBoundDevice == 0 && !dlssInitialized && !dlssEnabled && !dlssSuspended && !reflexLow
      ensures device == 0 && !chain && owner == NativeOwner && !usesSl
    {
      this.cfg := cfg;
      mode, running, stage, retirePending := Off, true, NoStage, false;
      pendingMode, switchPending, toggleMode, togglePending := Off, false, Off, false;
      armed, manual, autoStage, stressDidSuspend, stressDidOff := false, false, 0, false, false;
      fsrLoaded, fsrInitialized, fsrEnabled, fsrSuspended, fgCtx, swapCtx := false, false, false, false, false, false;
      slInitialized, slFactoryExport, slSetOptions, slGetState, slReflex := false, false, false, false, false;
      slDeviceSet, slBoundDevice := false, 0;
      dlssInitialized, dlssEnabled, dlssSuspended, reflexLow := false, false, false, false;
      device, chain, owner, usesSl := 0, false, NativeOwner, false;
      log := NO_CALLS;
    }

    // -------------------------------------------------------------------------------------------
    // Invariants
    // -------------------------------------------------------------------------------------------

    function ChainKindNow(): ChainKind
      reads `chain, `usesSl, `owner
    {
      if !chain then NoChain
      else if usesSl then StreamlineChain
      else if owner == FsrOwner then FsrChain
      else NativeChain
    }

    predicate StreamlineReady()
      reads `slInitialized, `slDeviceSet, `dlssInitialized
    {
      slInitialized && slDeviceSet && dlssInitialized
    }

    /** An FSR-owned presentation surface that can still present. */
    predicate FsrProxyAlive()
      reads `chain, `owner, `swapCtx
    {
      chain && owner == FsrOwner && swapCtx
    }

    /** Which FSR and swapchain handles imply which. */
    predicate FsrHandles()
      reads `swapCtx, `chain, `owner, `device, `fgCtx, `fsrInitialized, `fsrLoaded, `fsrEnabled
    {
      && (swapCtx <==> chain && owner == FsrOwner)
      && (chain ==> device != 0)
      && (fgCtx <==> fsrInitialized)
      && (fgCtx || swapCtx ==> fsrLoaded)
      && (fsrEnabled ==> fgCtx)
    }

    /** Which Streamline handles imply which; a live Streamline swapchain has everything ready. */
    predicate SlHandles()
      reads `dlssInitialized, `slSetOptions, `slGetState, `slReflex, `slBoundDevice, `slFactoryExport, `slInitialized,
            `slDeviceSet, `reflexLow, `usesSl, `chain, `owner
    {
      && (dlssInitialized ==> slSetOptions && slGetState)
      && (slSetOptions || slGetState || slReflex || slBoundDevice != 0 || slFactoryExport ==> slInitialized)
      && (slDeviceSet ==> slBoundDevice != 0)
      && (reflexLow ==> slReflex)
      && (usesSl ==> chain && owner == NativeOwner && slDeviceSet && dlssInitialized && slFactoryExport)
    }

    /** The fields agree with what the vendor has seen, and the stage is about the swapchain it names. */
    ghost predicate AgreesWith(w: World)
      reads `chain, `usesSl, `owner, `fgCtx, `swapCtx, `stage, `fsrEnabled, `slInitialized, `slFactoryExport
    {
      && (w.residue == Dirty ==> fgCtx && swapCtx) && (w.fsr == Running ==> fsrEnabled)
      && (StagedFsrExit(stage) ==> swapCtx && fgCtx && !fsrEnabled && w.fsr == Stopped)
      && (stage == PassthroughPresented ==> w.residue == Clean)
      && (IsReplacementStage(stage) ==> chain && !swapCtx && !fgCtx && slInitialized && (slFactoryExport ==> usesSl))
      && (usesSl ==> (w.image == Shown <==> stage != ReplacementPresentPending))
    }

    ghost predicate Agrees()
      reads `log, `chain, `usesSl, `owner, `fgCtx, `swapCtx, `stage, `fsrEnabled, `slInitialized, `slFactoryExport
    {
      log.verdict.world.chain == ChainKindNow() && AgreesWith(log.verdict.world)
    }

    lemma SameAgreement(w: World, u: World)
      requires u.image == w.image && u.residue == w.residue && u.fsr == w.fsr
      ensures AgreesWith(u) <==> AgreesWith(w)
    {
    }

    /** The ordering rules so far; two of them only while no call of their kind has failed. */
    ghost predicate Rules()
      reads `log, `dlssEnabled
    {
      RulesOf(log.verdict, dlssEnabled)
    }

    ghost predicate Core()
      reads `log, `chain, `usesSl, `owner, `device, `stage,
            `fsrLoaded, `fsrInitialized, `fsrEnabled, `fgCtx, `swapCtx,
            `slInitialized, `slFactoryExport, `slSetOptions, `slGetState, `slReflex, `slDeviceSet, `slBoundDevice,
            `dlssInitialized, `dlssEnabled, `reflexLow
    {
      FsrHandles() && SlHandles() && Agrees() && Rules()
    }

    predicate DlssCoherent()
      reads `dlssEnabled, `dlssSuspended, `mode, `usesSl, `stage
    {
      && (dlssEnabled || dlssSuspended ==> mode == Dlss)
      && (mode == Dlss ==> usesSl && stage == NoStage)
    }

    predicate FsrCoherent()
      reads `fsrEnabled, `mode
    {
      fsrEnabled ==> mode == Fsr
    }

    /** What every step of a switch relies on. */
    ghost predicate Steady()
      reads `log, `chain, `usesSl, `owner, `device, `stage,
            `fsrLoaded, `fsrInitialized, `fsrEnabled, `fgCtx, `swapCtx,
            `slInitialized, `slFactoryExport, `slSetOptions, `slGetState, `slReflex, `slDeviceSet, `slBoundDevice,
            `dlssInitialized, `dlssEnabled, `reflexLow,
            `running, `mode, `switchPending, `togglePending, `fsrSuspended, `dlssSuspended
    {
      var v := log.verdict;
      && Core()
      && (running ==> chain)
      && !(switchPending && togglePending)
      && (StagedFsrExit(stage) && mode == Fsr ==> switchPending && fsrSuspended)
      && (stage == PresentPending ==> mode == Fsr)
      && (stage == PassthroughPresented && mode != Fsr ==> v.world.life == HasFailed)
      && v.world.fsrMode == (mode == Fsr) && v.world.stray == (fsrEnabled && mode != Fsr)
      && (IsReplacementStage(stage) ==> mode == Off && switchPending)
      && DlssCoherent()
      && (mode == Fsr ==> fgCtx)
      && (mode == Fsr && !fsrEnabled && stage == NoStage ==> v.world.residue == Clean)
      && (v.world.life == NeverFailed ==>
            FsrCoherent() && (v.world.residue == Dirty ==> fsrEnabled || stage == PresentPending))
    }

    /** Until a switch fails, a Streamline swapchain is only there for DLSS. */
    ghost predicate ProxyHasPurpose()
      reads `log, `usesSl, `mode, `stage
    {
      log.verdict.switches == NeverFailed && usesSl ==> mode == Dlss || IsReplacementStage(stage)
    }

    /** Only a key asks for a toggle. */
    predicate ByHand()
      reads `togglePending, `manual
    {
      togglePending ==> manual
    }

    /** What holds between any two inputs. */
    ghost predicate Inv()
      reads `log, `chain, `usesSl, `owner, `device, `stage,
            `fsrLoaded, `fsrInitialized, `fsrEnabled, `fgCtx, `swapCtx,
            `slInitialized, `slFactoryExport, `slSetOptions, `slGetState, `slReflex, `slDeviceSet, `slBoundDevice,
            `dlssInitialized, `dlssEnabled, `reflexLow,
            `running, `mode, `switchPending, `togglePending, `fsrSuspended, `dlssSuspended, `manual
    {
      Steady() && ProxyHasPurpose() && ByHand()
    }

    // -------------------------------------------------------------------------------------------
    // FSR runtime calls
    // -------------------------------------------------------------------------------------------

    /** The verdict after an FSR option was accepted or refused. */
    ghost function FsrVerdict(v: Verdict, enable: bool, ok: bool): Verdict {
      v.(world := FsrAnswer(v.world, enable, ok))
    }

    /** The verdict after FSR's presents were drained, or not. */
    ghost function DrainVerdict(v: Verdict, ok: bool): Verdict {
      if ok then v else v.(world := v.world.(life := HasFailed))
    }

    lemma FsrAnswerMeans(v: Verdict, enable: bool, ok: bool)
      ensures var w, u := v.world, FsrVerdict(v, enable, ok).world;
              && u.chain == w.chain && u.image == w.image && u.dlss == w.dlss && u.fsrMode == w.fsrMode
              && u.residue == (if enable && ok && w.chain == FsrChain then Dirty else w.residue)
              && u.life == (if ok then w.life else HasFailed)
              && u.stray == (w.stray || (enable && ok && !w.fsrMode))
              && (u.fsr == Running ==> (enable && ok) || (w.fsr == Running && enable))
              && (u.fsr == Stopped <==> if ok then !enable else w.fsr == Stopped)
      ensures RulesOf(FsrVerdict(v, enable, ok), dlssEnabled) <==> RulesOf(v, dlssEnabled)
    {
    }

    method ConfigureFsr(enable: bool, ok: bool) returns (r: bool)
      modifies `log
      ensures r == (fsrLoaded && fgCtx && ok)
      ensures log == if fsrLoaded && fgCtx then Append(old(log), FsrConfigured(enable, ok)) else old(log)
      ensures var v := old(log).verdict;
              log.verdict == if fsrLoaded && fgCtx then FsrVerdict(v, enable, ok) else v
    {
      hide Judge, JudgeStep, FsrAnswer;
      if !fsrLoaded || !fgCtx {
        return false;
      }
      FsrVerdicts(log.verdict, enable, ok);
      log := Append(log, FsrConfigured(enable, ok));
      return ok;
    }

    method WaitForFsrPresents(ok: bool) returns (r: bool)
      modifies `log
      ensures r == (!fsrLoaded || !swapCtx || ok)
      ensures log == if fsrLoaded && swapCtx then Append(old(log), FsrWaited(ok)) else old(log)
      ensures log.verdict == if fsrLoaded && swapCtx then DrainVerdict(old(log).verdict, ok) else old(log).verdict
    {
      hide Judge, JudgeStep, FsrAnswer;
      if !fsrLoaded || !swapCtx {
        return true;
      }
      FsrVerdicts(log.verdict, false, ok);
      log := Append(log, FsrWaited(ok));
      return ok;
    }

    /** FSR is told to stop and drained, as far as it is there. */
    function QuietCalls(f: Frame): seq<Event>
      reads `fgCtx, `swapCtx
    {
      if !fgCtx then []
      else [FsrConfigured(false, f.ask(FsrDestroy))] + if swapCtx then [FsrWaited(f.ask(FsrDestroyWait))] else []
    }

    function DestroyCalls(f: Frame): seq<Event>
      reads `fgCtx, `swapCtx
    {
      QuietCalls(f) + if swapCtx then [FsrProxyDestroyed] else []
    }

    /** FSR is asked to stop before its contexts go. */
    method QuietFsr(f: Frame)
      requires FsrHandles()
      modifies `log
      ensures log.verdict == old(log.verdict.(world := Emptied(log.verdict.world, fgCtx, swapCtx, f)))
      ensures log.calls == old(log.calls + QuietCalls(f))
    {
      hide Judge, JudgeStep, Append;
      if !fsrLoaded || !fgCtx {
        return;
      }
      var _ := ConfigureFsr(false, f.ask(FsrDestroy));
      var _ := WaitForFsrPresents(f.ask(FsrDestroyWait));
    }

    /** Destroys both contexts; a proxy that was never shown quiet is what the judge calls a dirty tear-down. */
    method DestroyFsrContexts(f: Frame)
      requires FsrHandles()
      modifies `log, `fgCtx, `swapCtx, `fsrEnabled, `fsrSuspended, `fsrInitialized, `stage
      ensures !fgCtx && !swapCtx && !fsrEnabled && !fsrSuspended && !fsrInitialized && stage == NoStage
      ensures log.verdict == old(TornDown(log.verdict, fgCtx, swapCtx, f))
      ensures log.calls == old(log.calls + DestroyCalls(f))
    {
      hide Judge, JudgeStep, Emptied, ProxyGone, Append;
      QuietFsr(f);
      ProxyVerdict(log.verdict);
      if fsrLoaded && fgCtx {
        fgCtx := false;
      }
      if fsrLoaded && swapCtx {
        log := Append(log, FsrProxyDestroyed);
        swapCtx := false;
      }
      fsrEnabled, fsrSuspended, fsrInitialized, stage := false, false, false, NoStage;
    }

    method TryInitFsr(f: Frame) returns (made: bool)
      modifies `fgCtx, `log
      ensures made == (fsrLoaded && device != 0 && f.ask(FsrContext))
      ensures fgCtx == (if fsrLoaded && device != 0 then made else old(fgCtx))
      ensures log == if made then Append(old(log), FsrConfigured(false, f.ask(FsrStartup))) else old(log)
    {
      if !fsrLoaded || device == 0 {
        return false;
      }
      fgCtx := f.ask(FsrContext);
      if !fgCtx {
        return false;
      }
      var _ := ConfigureFsr(false, f.ask(FsrStartup));
      return true;
    }

    /** The configuration drops the FSR runtime whenever nothing of it is left. */
    predicate Unloads()
      reads `fgCtx, `swapCtx, `fsrEnabled
    {
      cfg.fsrReloadRuntime && !fgCtx && !swapCtx && !fsrEnabled
    }

    method MaybeUnloadFsrRuntime()
      modifies `fsrLoaded, `fsrInitialized
      ensures var unload := cfg.fsrReloadRuntime && !fgCtx && !swapCtx && !fsrEnabled && old(fsrLoaded);
              fsrLoaded == (old(fsrLoaded) && !unload) && fsrInitialized == (old(fsrInitialized) && !unload)
    {
      if !cfg.fsrReloadRuntime || fgCtx || swapCtx || fsrEnabled || !fsrLoaded {
        return;
      }
      fsrLoaded, fsrInitialized := false, false;
    }

    method RetireFsrRuntime()
      modifies `fsrLoaded, `fsrInitialized, `retirePending
      ensures !retirePending
      ensures var unload := old(retirePending) && cfg.fsrReloadRuntime && !fgCtx && !swapCtx && !fsrEnabled
              && old(fsrLoaded);
              fsrLoaded == (old(fsrLoaded) && !unload) && fsrInitialized == (old(fsrInitialized) && !unload)
    {
      if retirePending {
        MaybeUnloadFsrRuntime();
        retirePending := false;
      }
    }

    // -------------------------------------------------------------------------------------------
    // Streamline calls
    // -------------------------------------------------------------------------------------------

    method ApplyReflexMode(active: bool, ok: bool)
      modifies `reflexLow, `log
      ensures var issued := slReflex && active != old(reflexLow);
              && reflexLow == (if issued && ok then active else old(reflexLow))
              && log == if issued then Append(old(log), ReflexSet(active, ok)) else old(log)
      ensures active || old(log).verdict.world.chain != StreamlineChain ==> log.verdict == old(log).verdict
    {
      hide Judge, JudgeStep;
      if !slReflex || active == reflexLow {
        return;
      }
      if active || log.verdict.world.chain != StreamlineChain {
        ReflexVerdict(log.verdict, active, ok);
      }
      log := Append(log, ReflexSet(active, ok));
      if ok {
        reflexLow := active;
      }
    }

    /** Reflex goes low together with an accepted enable, and is never touched by a disable. */
    method SetDlssMode(enable: bool, ok: bool, reflexOk: bool) returns (r: bool)
      modifies `reflexLow, `log
      ensures r == (slSetOptions && ok)
      ensures log.verdict == if slSetOptions then JudgeStep(old(log).verdict, DlssGSet(enable, ok))
              else old(log).verdict
      ensures log.calls == old(log).calls + (if slSetOptions then [DlssGSet(enable, ok)] else []) +
                           (if r && enable && slReflex && !old(reflexLow) then [ReflexSet(true, reflexOk)] else [])
      ensures reflexLow == (old(reflexLow) || (r && enable && slReflex && reflexOk))
      ensures old(SlHandles()) ==> SlHandles()
    {
      hide Judge, JudgeStep;
      if !slSetOptions {
        return false;
      }
      log := Append(log, DlssGSet(enable, ok));
      if enable && ok {
        ApplyReflexMode(true, reflexOk);
      }
      return ok;
    }

    /** The verdict after a DLSS-G call on a swapchain that has been shown. */
    ghost function DlssSet(v: Verdict, on: bool, ok: bool): Verdict {
      v.(world := v.world.(dlss := DlssAnswer(v.world.dlss, on, ok)),
         dlssOffCalls := if !on && !ok then HasFailed else v.dlssOffCalls)
    }

    /** A Streamline swapchain past its first image may have DLSS-G set either way. */
    lemma ShownStreamline()
      requires Core() && usesSl && stage != ReplacementPresentPending
      ensures slSetOptions && log.verdict.world.chain == StreamlineChain && log.verdict.world.image == Shown
    {
      hide FsrHandles, Rules;
    }

    /** After a disable DLSS-G counts as off, whatever the answer. */
    lemma RulesOutlastDlss(v: Verdict, on: bool, ok: bool, enabled: bool, now: bool)
      requires RulesOf(v, enabled) && (on && (ok || enabled) ==> now)
      ensures RulesOf(DlssSet(v, on, ok), now)
    {
    }

    method SwitchDlssOff(ok: bool) returns (r: bool)
      modifies `reflexLow, `log
      ensures r == (slSetOptions && ok) && reflexLow == old(reflexLow)
      ensures log.calls == old(log).calls + if slSetOptions then [DlssGSet(false, ok)] else []
      ensures log.verdict == if slSetOptions then DlssSet(old(log).verdict, false, ok) else old(log).verdict
    {
      hide Judge, JudgeStep, DlssAnswer;
      DlssVerdict(log.verdict, false, ok);
      r := SetDlssMode(false, ok, false);
    }

    method LoadStreamline(f: Frame) returns (ok: bool)
      modifies `slInitialized, `slFactoryExport
      ensures ok == slInitialized == (old(slInitialized) || f.ask(SlLoad))
      ensures slFactoryExport == (if !old(slInitialized) && f.ask(SlLoad) then f.ask(SlFactoryExport)
                                  else old(slFactoryExport))
    {
      if !slInitialized && f.ask(SlLoad) {
        slInitialized, slFactoryExport := true, f.ask(SlFactoryExport);
      }
      return slInitialized;
    }

    /** Streamline accepts one device per load, so a later binding only compares. */
    method BindStreamlineDevice(ok: bool)
      modifies `slDeviceSet, `slBoundDevice
      ensures slDeviceSet == (slInitialized && device != 0 && if old(slBoundDevice) != 0
              then old(slBoundDevice) == device else ok)
      ensures slBoundDevice == (if slDeviceSet then device else old(slBoundDevice))
    {
      if !slInitialized || device == 0 {
        slDeviceSet := false;
      } else if slBoundDevice != 0 {
        slDeviceSet := slBoundDevice == device;
      } else {
        slDeviceSet := ok;
        if ok {
          slBoundDevice := device;
        }
      }
    }

    predicate FeaturesResolve(f: Frame)
      reads `slSetOptions, `slGetState
    {
      (slSetOptions || f.ask(ResolveSetOptions)) && (slGetState || f.ask(ResolveGetState))
    }

    method ResolveFeatures(f: Frame)
      modifies `slSetOptions, `slGetState, `slReflex
      ensures slSetOptions == (old(slSetOptions) || f.ask(ResolveSetOptions))
      ensures slGetState == (old(slGetState) || f.ask(ResolveGetState))
      ensures slReflex == (old(slReflex) || f.ask(ResolveReflex))
    {
      if f.ask(ResolveSetOptions) { slSetOptions := true; }
      if f.ask(ResolveGetState) { slGetState := true; }
      if f.ask(ResolveReflex) { slReflex := true; }
    }

    /** The frame would create the device Streamline is bound to, if any, and knows its exports. */
    predicate SameStreamline(f: Frame)
      reads `slBoundDevice, `slInitialized, `slFactoryExport
    {
      (slBoundDevice == 0 || slBoundDevice == f.device) && (slInitialized ==> slFactoryExport == f.ask(SlFactoryExport))
    }

    /** The frame would also create the device in use. */
    predicate SameVendor(f: Frame)
      reads `device, `slBoundDevice, `slInitialized, `slFactoryExport
    {
      device == f.device && SameStreamline(f)
    }

    /** Streamline has the device, or is offered it once more and takes it. */
    predicate BindsAgain(f: Frame)
      reads `slInitialized, `slDeviceSet, `device, `slBoundDevice
    {
      slInitialized && (slDeviceSet || (device != 0 &&
        if slBoundDevice != 0 then slBoundDevice == device else f.ask(SlSetDeviceAgain)))
    }

    /** The device is offered once more to a loaded runtime that does not have it. */
    method OfferDevice(f: Frame)
      requires SlHandles() && !usesSl && slInitialized
      modifies `slDeviceSet, `slBoundDevice
      ensures SlHandles() && slDeviceSet == old(BindsAgain(f))
      ensures slDeviceSet && !old(slDeviceSet) ==> slBoundDevice == device
      ensures old(slDeviceSet) ==> slBoundDevice == old(slBoundDevice)
      ensures old(slBoundDevice) != 0 ==> slBoundDevice == old(slBoundDevice)
      ensures old(SameVendor(f)) ==> SameVendor(f)
    {
      if !slDeviceSet {
        BindStreamlineDevice(f.ask(SlSetDeviceAgain));
      }
    }

    lemma UnloadedStaysUnbound(f: Frame)
      requires SlHandles() && !slInitialized
      ensures !BindsAgain(f) && !slDeviceSet
    {
    }

    /** The feature functions are looked up on a bound runtime. */
    method ReadyFeatures(f: Frame)
      requires SlHandles() && slInitialized && slDeviceSet
      modifies `slSetOptions, `slGetState, `slReflex
      ensures SlHandles() && (slSetOptions && slGetState <==> old(FeaturesResolve(f)))
      ensures slReflex == (old(slReflex) || f.ask(ResolveReflex))
    {
      ResolveFeatures(f);
    }

    method TryInitDlss(f: Frame) returns (ok: bool)
      requires SlHandles() && !usesSl && log.verdict.world.chain == ChainKindNow()
      modifies `slDeviceSet, `slBoundDevice, `slSetOptions, `slGetState, `slReflex, `reflexLow, `log
      ensures SlHandles() && log.verdict == old(log).verdict
      ensures slDeviceSet == old(BindsAgain(f)) && ok == old(BindsAgain(f) && FeaturesResolve(f))
      ensures ok ==> slInitialized && slSetOptions && slGetState
      ensures slDeviceSet && !old(slDeviceSet) ==> slBoundDevice == device
      ensures var drops := slDeviceSet && slReflex && old(reflexLow);
              && reflexLow == (old(reflexLow) && !(drops && f.ask(ReflexInit)))
              && log == if drops then Append(old(log), ReflexSet(false, f.ask(ReflexInit))) else old(log)
      ensures old(slDeviceSet) ==> slBoundDevice == old(slBoundDevice)
      ensures old(slBoundDevice) != 0 ==> slBoundDevice == old(slBoundDevice)
      ensures old(SameVendor(f)) ==> SameVendor(f)
    {
      hide Judge, JudgeStep, BindsAgain, SameVendor, FeaturesResolve;
      if !slInitialized {
        UnloadedStaysUnbound(f);
        return false;
      }
      OfferDevice(f);
      if !slDeviceSet {
        return false;
      }
      ReadyFeatures(f);
      ApplyReflexMode(false, f.ask(ReflexInit));
      return slSetOptions && slGetState;
    }

    /** Whether preparing DLSS will succeed: runtime, device and features, each already there or granted now. */
    predicate CanPrepare(f: Frame)
      reads `slInitialized, `slDeviceSet, `device, `slBoundDevice, `dlssInitialized, `slSetOptions, `slGetState
    {
      && (slInitialized || f.ask(SlLoad))
      && (slDeviceSet || (device != 0 && if slBoundDevice != 0 then slBoundDevice == device else f.ask(SlSetDevice)))
      && (dlssInitialized || FeaturesResolve(f))
    }

    /** Whether the Streamline runtime, loaded now if need be, offers its own DXGI factory. */
    predicate Exported(f: Frame)
      reads `slInitialized, `slFactoryExport
    {
      if slInitialized then slFactoryExport else f.ask(SlFactoryExport)
    }

    /** Streamline offers its factory, or is not loaded yet, and has not settled on another device. */
    predicate CanReachDlss()
      reads `slInitialized, `slFactoryExport, `slDeviceSet, `slBoundDevice, `device
    {
      (slInitialized ==> slFactoryExport) && (slDeviceSet || slBoundDevice == 0 || slBoundDevice == device)
    }

    /** The runtime is loaded, and accepts the device unless it has settled on another. */
    method LoadAndBind(f: Frame) returns (bound: bool)
      requires SlHandles()
      modifies `slInitialized, `slFactoryExport, `slDeviceSet, `slBoundDevice
      ensures SlHandles() && bound == (slInitialized && slDeviceSet)
      ensures bound == old((slInitialized || f.ask(SlLoad)) && (slDeviceSet || (device != 0 &&
                         if slBoundDevice != 0 then slBoundDevice == device else f.ask(SlSetDevice))))
      ensures old(slInitialized) ==> slInitialized && slFactoryExport == old(slFactoryExport)
      ensures bound ==> slFactoryExport == old(Exported(f))
      ensures bound ==> slBoundDevice == if old(slDeviceSet) then old(slBoundDevice) else device
      ensures old(SameVendor(f)) ==> SameVendor(f)
    {
      var loaded := LoadStreamline(f);
      if !loaded {
        return false;
      }
      if !slDeviceSet {
        BindStreamlineDevice(f.ask(SlSetDevice));
      }
      return slDeviceSet;
    }

    method EnsureStreamlineReady(f: Frame) returns (ok: bool)
      requires SlHandles() && log.verdict.world.chain == ChainKindNow()
      modifies `slInitialized, `slFactoryExport, `slDeviceSet, `slBoundDevice, `slSetOptions, `slGetState, `slReflex,
               `reflexLow, `dlssInitialized, `log
      ensures SlHandles() && log.verdict == old(log).verdict
      ensures ok == old(CanPrepare(f)) == StreamlineReady()
      ensures old(slInitialized) ==> slInitialized && slFactoryExport == old(slFactoryExport)
      ensures ok ==> slFactoryExport == old(Exported(f))
      ensures ok ==> slBoundDevice == if old(slDeviceSet) then old(slBoundDevice) else device
      ensures old(SameVendor(f)) ==> SameVendor(f)
    {
      hide Judge, JudgeStep, Append, Exported;
      var bound := LoadAndBind(f);
      if !bound {
        return false;
      }
      if !dlssInitialized {
        dlssInitialized := TryInitDlss(f);
      }
      return dlssInitialized;
    }

    // -------------------------------------------------------------------------------------------
    // Swapchains and devices
    // -------------------------------------------------------------------------------------------

    method ReleaseSwapChain()
      modifies `chain, `usesSl, `log
      ensures !chain && !usesSl
      ensures log == if old(chain) then Append(old(log), ChainReleased) else old(log)
    {
      if chain {
        log := Append(log, ChainReleased);
      }
      chain, usesSl := false, false;
    }

    method CreateSwapChain(useFfx: bool, useSl: bool, factory: bool, ffx: bool, plain: bool) returns (ok: bool)
      requires !chain && !usesSl
      modifies `chain, `owner, `usesSl, `swapCtx, `log
      ensures ok == chain == (factory && ((useFfx && fsrLoaded && ffx) || plain))
      ensures swapCtx == if factory && useFfx && fsrLoaded then ffx else old(swapCtx)
      ensures usesSl == (ok && !useFfx && useSl && slFactoryExport)
      ensures owner == if !ok then old(owner) else if useFfx && fsrLoaded && ffx then FsrOwner else NativeOwner
      ensures log == if ok then Append(old(log), ChainCreated(ChainKindNow())) else old(log)
    {
      if !factory {
        return false;
      }
      var usingFfx := false;
      if useFfx && fsrLoaded {
        swapCtx := ffx;
        usingFfx := ffx;
      }
      if !usingFfx && !plain {
        return false;
      }
      chain := true;
      owner := if usingFfx then FsrOwner else NativeOwner;
      usesSl := !useFfx && useSl && slFactoryExport;
      log := Append(log, ChainCreated(ChainKindNow()));
      return true;
    }

    lemma NewChainKeeps(v: Verdict, kind: ChainKind, made: bool)
      ensures var w := NewChain(v.world, kind, made);
              && w.chain == kind && w.image == NotShown && w.residue == Clean && w.dlss == v.world.dlss
              && w.fsr == v.world.fsr && w.fsrMode == v.world.fsrMode && w.stray == v.world.stray
    {
    }

    lemma RulesOutlastChain(v: Verdict, kind: ChainKind, made: bool)
      ensures RulesOf(v.(world := NewChain(v.world, kind, made)), dlssEnabled) <==> RulesOf(v, dlssEnabled)
    {
    }

    method RecreateSwapChain(useSl: bool, factory: bool, plain: bool) returns (ok: bool)
      requires chain
      modifies `chain, `owner, `usesSl, `swapCtx, `log
      ensures ok == chain == (factory && plain)
      ensures swapCtx == old(swapCtx)
      ensures usesSl == (ok && useSl && slFactoryExport)
      ensures owner == if ok then NativeOwner else old(owner)
      ensures log.verdict == old(log).verdict.(world := NewChain(old(log).verdict.world, ChainKindNow(), ok))
      ensures old(Rules()) ==> Rules()
      ensures old(SlHandles() && (useSl ==> StreamlineReady())) ==> SlHandles()
    {
      hide Judge, JudgeStep, NewChain, Append;
      ghost var v := log.verdict;
      ReleaseSwapChain();
      ok := CreateSwapChain(false, useSl, factory, false, plain);
      ChainVerdicts(v, ChainKindNow());
      ChainVerdicts(v.(world := NewChain(v.world, NoChain, false)), ChainKindNow());
      NewChainKeeps(v, ChainKindNow(), ok);
    }

    method ReleaseRenderer()
      modifies `chain, `usesSl, `device, `log
      ensures !chain && !usesSl && device == 0
      ensures log == if old(chain) then Append(old(log), ChainReleased) else old(log)
    {
      ReleaseSwapChain();
      device := 0;
    }

    /** Whether `InitDx12` gets as far as asking for a swapchain. */
    predicate RendererGranted(f: Frame) {
      f.device != 0 && f.ask(Queue) && f.ask(Factory)
    }

    method InitDx12(useFfx: bool, f: Frame) returns (ok: bool)
      requires !chain && !usesSl
      modifies `device, `slDeviceSet, `slBoundDevice, `chain, `owner, `usesSl, `swapCtx, `log
      ensures device == (if f.device == 0 then old(device) else f.device)
      ensures ok == chain == (RendererGranted(f) && ((useFfx && fsrLoaded && f.ask(FfxChain)) || f.ask(PlainChain)))
      ensures !usesSl
      ensures swapCtx == if RendererGranted(f) && useFfx && fsrLoaded then f.ask(FfxChain) else old(swapCtx)
      ensures owner == if !ok then old(owner) else if useFfx && fsrLoaded && f.ask(FfxChain)
              then FsrOwner else NativeOwner
      ensures log == if ok then Append(old(log), ChainCreated(ChainKindNow())) else old(log)
      ensures slDeviceSet == (if f.device == 0 || !slInitialized then old(slDeviceSet)
                              else if old(slBoundDevice) != 0
                                then old(slBoundDevice) == f.device else f.ask(SlSetDevice))
      ensures slBoundDevice == (if f.device != 0 && slInitialized && slDeviceSet then f.device else old(slBoundDevice))
      ensures old(SameStreamline(f)) ==> SameStreamline(f)
    {
      if f.device == 0 {
        return false;
      }
      device := f.device;
      if slInitialized {
        BindStreamlineDevice(f.ask(SlSetDevice));
      }
      if !f.ask(Queue) {
        return false;
      }
      ok := CreateSwapChain(useFfx, false, f.ask(Factory), f.ask(FfxChain), f.ask(PlainChain));
    }

    /** The renderer goes, and Reflex with it: no swapchain is alive now. */
    method TearDownRenderer(ok: bool)
      requires log.verdict.world.chain == ChainKindNow() && chain
      modifies `device, `chain, `usesSl, `reflexLow, `log
      ensures !chain && !usesSl && device == 0 && reflexLow == (old(reflexLow) && !(slReflex && ok))
      ensures log.verdict == old(log).verdict.(world := NewChain(old(log).verdict.world, NoChain, false))
    {
      hide Judge, JudgeStep, NewChain, Append;
      ChainVerdicts(log.verdict, NoChain);
      NewChainKeeps(log.verdict, NoChain, false);
      ReleaseRenderer();
      ApplyReflexMode(false, ok);
    }

    /** Tears the renderer down, drops Reflex while no swapchain is alive, and builds a native or FSR one. */
    method ReinitializeDx12(forFsr: bool, f: Frame) returns (ok: bool)
      requires log.verdict.world.chain == ChainKindNow() && chain
      modifies `device, `slDeviceSet, `slBoundDevice, `chain, `owner, `usesSl, `swapCtx, `reflexLow, `log
      ensures device == f.device
      ensures ok == chain == (RendererGranted(f) && ((forFsr && fsrLoaded && f.ask(FfxChain)) || f.ask(PlainChain)))
      ensures !usesSl
      ensures swapCtx == if RendererGranted(f) && forFsr && fsrLoaded then f.ask(FfxChain) else old(swapCtx)
      ensures owner == if !ok then old(owner) else if forFsr && fsrLoaded && f.ask(FfxChain)
              then FsrOwner else NativeOwner
      ensures log.verdict == old(log).verdict.(world := NewChain(old(log).verdict.world, ChainKindNow(), ok))
      ensures slDeviceSet == (if f.device == 0 || !slInitialized then old(slDeviceSet)
                              else if old(slBoundDevice) != 0
                                then old(slBoundDevice) == f.device else f.ask(SlSetDevice))
      ensures slBoundDevice == (if f.device != 0 && slInitialized && slDeviceSet then f.device else old(slBoundDevice))
      ensures reflexLow == (old(reflexLow) && !(slReflex && f.ask(ReflexRelease)))
      ensures old(SameVendor(f)) ==> SameVendor(f)
      ensures old(Rules()) ==> Rules()
    {
      hide Judge, JudgeStep, NewChain, Append, RulesOf, SameStreamline;
      ghost var v := log.verdict;
      TearDownRenderer(f.ask(ReflexRelease));
      ok := InitDx12(forFsr, f);
      ChainVerdicts(v, ChainKindNow());
      ChainVerdicts(v.(world := NewChain(v.world, NoChain, false)), ChainKindNow());
      RulesOutlastChain(v, ChainKindNow(), ok);
    }

    // -------------------------------------------------------------------------------------------
    // Leaving FSR
    // -------------------------------------------------------------------------------------------

    /** Streamline could not be prepared: the disabled proxy is re-enabled instead of being destroyed. */
    method RollBackToFsr(f: Frame)
      requires Core() && stage == PassthroughPresented
      modifies `stage, `fsrSuspended, `fsrEnabled, `switchPending, `reflexLow, `log
      ensures Core() && stage == NoStage && !fsrSuspended && !switchPending && fsrEnabled == f.ask(FsrRollback)
      ensures log.verdict == FsrVerdict(old(log).verdict, true, fsrEnabled)
      ensures reflexLow == (old(reflexLow) && !(slReflex && f.ask(ReflexRollback)))
    {
      hide Judge, JudgeStep, Append, SlHandles, Rules;
      ChainHasOneProxy();
      stage := NoStage;
      ReleaseReflex(f.ask(ReflexRollback));
      fsrSuspended := false;
      SetFsr(true, f.ask(FsrRollback));
      switchPending := false;
    }

    /** Reflex may go off: no Streamline swapchain is alive. */
    method ReleaseReflex(ok: bool)
      requires Core() && !usesSl
      modifies `reflexLow, `log
      ensures Core() && log.verdict == old(log).verdict
      ensures reflexLow == (old(reflexLow) && !(slReflex && ok))
    {
      hide Judge, JudgeStep, Append;
      ApplyReflexMode(false, ok);
    }

    method PrepareDlss(f: Frame) returns (ok: bool)
      requires Core()
      modifies `slInitialized, `slFactoryExport, `slDeviceSet, `slBoundDevice, `slSetOptions, `slGetState, `slReflex,
               `reflexLow, `dlssInitialized, `log
      ensures Core() && log.verdict == old(log).verdict
      ensures ok == old(CanPrepare(f)) == StreamlineReady()
      ensures old(slInitialized) ==> slInitialized && slFactoryExport == old(slFactoryExport)
      ensures ok ==> slFactoryExport == old(Exported(f))
      ensures old(SameVendor(f)) ==> SameVendor(f)
    {
      hide Judge, JudgeStep, Append, FsrHandles, RulesOf, CanPrepare, Exported, SameVendor;
      ok := EnsureStreamlineReady(f);
    }

    /** Prepares Streamline under the shown passthrough image, or goes back to FSR with the proxy untouched. */
    method PrepareOrRollBack(f: Frame) returns (prepared: bool)
      requires Core() && stage == PassthroughPresented
      modifies `slInitialized, `slFactoryExport, `slDeviceSet, `slBoundDevice, `slSetOptions, `slGetState, `slReflex,
               `dlssInitialized, `reflexLow, `stage, `fsrSuspended, `fsrEnabled, `switchPending, `log
      ensures Core() && prepared == old(CanPrepare(f))
      ensures prepared ==> StreamlineReady() && stage == PassthroughPresented && !fsrEnabled
                           && switchPending == old(switchPending) && log.verdict == old(log).verdict
      ensures !prepared ==> stage == NoStage && !switchPending && !fsrSuspended && fsrEnabled == f.ask(FsrRollback)
      ensures !prepared ==> log.verdict == FsrVerdict(old(log).verdict, true, fsrEnabled)
      ensures prepared ==> Exported(f) == old(Exported(f))
      ensures old(slInitialized) ==> slInitialized && slFactoryExport == old(slFactoryExport)
      ensures old(StreamlineReady()) ==> prepared
      ensures old(SameVendor(f)) ==> SameVendor(f)
    {
      hide Judge, JudgeStep, Append, SameVendor, Rules, SlHandles, FsrHandles;
      prepared := PrepareDlss(f);
      if prepared {
        return;
      }
      RollBackToFsr(f);
    }

    /** A drain that fails is only remembered. */
    method DrainFsr(ok: bool) returns (drained: bool)
      requires Core()
      modifies `log
      ensures Core() && drained == (!swapCtx || ok)
      ensures log.verdict == if swapCtx then DrainVerdict(old(log).verdict, ok) else old(log).verdict
    {
      hide Judge, JudgeStep, Append, SlHandles, AgreesWith;
      SameAgreement(log.verdict.world, DrainVerdict(log.verdict, ok).world);
      drained := WaitForFsrPresents(ok);
    }

    lemma ReadyIsPrepared(f: Frame)
      ensures StreamlineReady() ==> CanPrepare(f)
    {
    }

    lemma StagedOnProxy()
      requires Core() && StagedFsrExit(stage)
      ensures swapCtx && !fsrEnabled
    {
      hide SlHandles, FsrHandles, Rules;
    }

    /** The passthrough image was shown; the proxy may be given up once its replacement is ready. */
    method CommitFsrBreak(target: Mode, f: Frame) returns (done: bool, ok: bool)
      requires Core() && stage == PassthroughPresented && target != Fsr
      modifies `slInitialized, `slFactoryExport, `slDeviceSet, `slBoundDevice, `slSetOptions, `slGetState, `slReflex,
               `dlssInitialized, `reflexLow, `stage, `fsrSuspended, `fsrEnabled, `switchPending, `log
      ensures Core()
      ensures done == (target == Dlss && !old(CanPrepare(f)))
      ensures done ==> !ok && stage == NoStage && !switchPending && fsrEnabled == f.ask(FsrRollback)
      ensures !done ==> ok == f.ask(FsrWait) && stage == PassthroughPresented && !fsrEnabled
                        && switchPending == old(switchPending) && (target == Dlss ==> StreamlineReady())
      ensures !fsrSuspended
      ensures log.verdict == if done then FsrVerdict(old(log).verdict, true, fsrEnabled)
                             else if swapCtx then DrainVerdict(old(log).verdict, ok) else old(log).verdict
      ensures !done ==> CanEnter(target, f) == old(CanEnter(target, f))
      ensures !done && target == Dlss ==> CanPrepare(f) && Exported(f) == old(Exported(f))
      ensures old(slInitialized) ==> slInitialized && slFactoryExport == old(slFactoryExport)
      ensures old(SameVendor(f)) ==> SameVendor(f)
      ensures target != Dlss ==> slInitialized == old(slInitialized)
    {
      hide Judge, JudgeStep, Append, Core, CanPrepare, Exported, SameVendor;
      StagedOnProxy();
      ReadyIsPrepared(f);
      if ShouldPrepareDlss(true, target == Dlss, StreamlineReady(), stage) {
        var prepared := PrepareOrRollBack(f);
        if !prepared {
          return true, false;
        }
        ReadyIsPrepared(f);
      }
      if !CanCommitFsrBreak(true, target == Dlss, StreamlineReady(), stage) {
        assert false;  // the refusal to commit is unreachable
      }
      fsrSuspended := false;
      ok := DrainFsr(f.ask(FsrWait));
      done := false;
    }

    /** FSR counts as disabled even when the call is refused. */
    method StopFsr(ok: bool) returns (disabled: bool)
      requires Core() && fsrEnabled
      modifies `fsrEnabled, `log
      ensures Core() && !fsrEnabled && disabled == ok
      ensures var v := old(log).verdict;
              log.verdict == FsrVerdict(v, false, ok)
    {
      hide Judge, JudgeStep, Append, SlHandles;
      disabled := ConfigureFsr(false, ok);
      fsrEnabled := false;
    }

    /** Disables FSR; a live proxy may be kept for one more image, otherwise it is drained at once. */
    method DisableFsr(f: Frame, mayStage: bool) returns (done: bool, ok: bool)
      requires Core() && fsrEnabled
      modifies `stage, `fsrSuspended, `fsrEnabled, `log
      ensures Core() && !fsrEnabled
      ensures done == (mayStage && f.ask(FsrLeave) && FsrProxyAlive())
      ensures done ==> ok && stage == PresentPending && fsrSuspended
      ensures !done ==> ok == (f.ask(FsrLeave) && (!swapCtx || f.ask(FsrWait))) && stage == old(stage) && !fsrSuspended
      ensures var v := FsrVerdict(old(log).verdict, false, f.ask(FsrLeave));
              log.verdict == if done || !f.ask(FsrLeave) || !swapCtx then v else DrainVerdict(v, f.ask(FsrWait))
    {
      hide Judge, JudgeStep, Append, SlHandles;
      var disabled := StopFsr(f.ask(FsrLeave));
      fsrSuspended := false;
      if !disabled {
        return false, false;
      }
      if mayStage && FsrProxyAlive() {
        fsrSuspended := true;
        stage := PresentPending;
        return true, true;
      }
      ok := DrainFsr(f.ask(FsrWait));
      done := false;
    }

    /** Whether leaving FSR rolls back to it: a shown passthrough image, a DLSS target that cannot be prepared. */
    predicate RollsBack(target: Mode, f: Frame)
      reads `stage, `slInitialized, `slDeviceSet, `device, `slBoundDevice, `dlssInitialized, `slSetOptions, `slGetState
    {
      stage == PassthroughPresented && target == Dlss && !CanPrepare(f)
    }

    /** The exit of a proxy whose passthrough image was shown: its rollback is as steady as what it came from. */
    method BreakFsr(target: Mode, f: Frame) returns (done: bool, ok: bool)
      requires Steady() && chain && switchPending && stage == PassthroughPresented && target != Fsr
      modifies `slInitialized, `slFactoryExport, `slDeviceSet, `slBoundDevice, `slSetOptions, `slGetState, `slReflex,
               `dlssInitialized, `reflexLow, `stage, `fsrSuspended, `fsrEnabled, `switchPending, `log
      ensures Core() && (done ==> Inv()) && done == old(RollsBack(target, f))
      ensures done ==> !ok && stage == NoStage && !switchPending && fsrEnabled == f.ask(FsrRollback)
      ensures !done ==> ok == f.ask(FsrWait) && !fsrEnabled && switchPending && stage == PassthroughPresented
                        && ProxyRested() && (target == Dlss ==> StreamlineReady())
      ensures log.verdict == old(log).verdict.(world := log.verdict.world)
      ensures var w := log.verdict.world;
              && w == old(log).verdict.world.(fsr := w.fsr, residue := w.residue, life := w.life, stray := w.stray)
              && w.residue == (if done && fsrEnabled then Dirty else old(log).verdict.world.residue)
              && (old(log).verdict.world.life == HasFailed || (!done && !ok) ==> w.life == HasFailed)
      ensures !done ==> CanEnter(target, f) == old(CanEnter(target, f))
      ensures !done && target == Dlss ==> CanPrepare(f) == old(CanPrepare(f)) && Exported(f) == old(Exported(f))
      ensures old(slInitialized) ==> slInitialized && slFactoryExport == old(slFactoryExport)
      ensures old(SameVendor(f)) ==> SameVendor(f)
      ensures target != Dlss ==> slInitialized == old(slInitialized)
    {
      hide Judge, JudgeStep, Append, Exported, CanPrepare, CanEnter, SameVendor, Rules, SlHandles;
      ChainHasOneProxy();
      done, ok := CommitFsrBreak(target, f);
    }

    /** FSR is stopped for the target; the stop may be staged only on the way out of FSR mode. */
    method StopFsrFor(target: Mode, f: Frame, mayStage: bool) returns (done: bool, ok: bool)
      requires Steady() && switchPending && fsrEnabled && mayStage == (mode == Fsr && target != Fsr)
      modifies `stage, `fsrSuspended, `fsrEnabled, `log
      ensures Core() && (done ==> Inv()) && !fsrEnabled && done == old(StaysForPassthrough(target, f))
      ensures done ==> ok && stage == PresentPending
      ensures !done ==> ok == (f.ask(FsrLeave) && (swapCtx ==> f.ask(FsrWait))) && stage == NoStage
                        && (target != Fsr ==> ProxyRested())
      ensures log.verdict == old(log).verdict.(world := log.verdict.world)
      ensures var w := log.verdict.world;
              && w == old(log).verdict.world.(fsr := w.fsr, life := w.life)
              && (old(log).verdict.world.life == HasFailed || (!done && !ok) ==> w.life == HasFailed)
              && (!f.ask(FsrLeave) && old(log).verdict.world.fsr != Stopped ==> w.fsr != Stopped)
    {
      hide Judge, JudgeStep, Append, Rules, SlHandles, Exported;
      ChainHasOneProxy();
      done, ok := DisableFsr(f, mayStage);
    }

    /** A request for FSR drops a staged exit. */
    method DropExit()
      requires Steady() && !IsReplacementStage(stage)
      modifies `stage
      ensures Core() && stage == NoStage && (old(stage) == NoStage ==> Steady())
      ensures old(StagedFsrExit(stage)) ==> !fsrEnabled
    {
      hide Judge, Rules, SlHandles, FsrHandles;
      stage := NoStage;
    }

    lemma StagedIsInv()
      requires Steady() && StagedFsrExit(stage) && switchPending
      ensures Inv()
    {
      hide Rules;
    }

    method LeaveFsr(target: Mode, f: Frame) returns (done: bool, ok: bool)
      requires Steady() && chain && switchPending && !IsReplacementStage(stage)
      modifies `slInitialized, `slFactoryExport, `slDeviceSet, `slBoundDevice, `slSetOptions, `slGetState, `slReflex,
               `dlssInitialized, `reflexLow, `stage, `fsrSuspended, `fsrEnabled, `switchPending, `log
      ensures done ==> Inv()
      ensures Core()
      ensures !done ==> !fsrEnabled && switchPending && (stage == NoStage || stage == PassthroughPresented)
      ensures !done ==> stage == if target != Fsr && old(stage) == PassthroughPresented
              then PassthroughPresented else NoStage
      ensures !done && stage == PassthroughPresented && !ok ==> log.verdict.world.life == HasFailed
      ensures !done && target == Dlss && old(stage) == PassthroughPresented ==> StreamlineReady()
      // which calls end here, and with what
      ensures done == old(StaysForPassthrough(target, f) || RollsBack(target, f))
      ensures done && !old(RollsBack(target, f)) ==> ok && stage == PresentPending && switchPending && !fsrEnabled
      ensures done && old(RollsBack(target, f)) ==> !ok && stage == NoStage && !switchPending
                                                    && fsrEnabled == f.ask(FsrRollback)
      ensures !done ==> ok == (if target != Fsr && old(stage) == PassthroughPresented then f.ask(FsrWait)
                               else old(fsrEnabled) ==> f.ask(FsrLeave) && (swapCtx ==> f.ask(FsrWait)))
      // what the judge saw
      ensures log.verdict == old(log).verdict.(world := log.verdict.world)
      ensures var w := log.verdict.world;
              w == old(log).verdict.world.(fsr := w.fsr, residue := w.residue, life := w.life, stray := w.stray)
      ensures log.verdict.world.residue == if old(RollsBack(target, f)) && fsrEnabled then Dirty
                                           else old(log).verdict.world.residue
      ensures old(log).verdict.world.life == HasFailed ==> log.verdict.world.life == HasFailed
      ensures !done && !ok ==> log.verdict.world.life == HasFailed
      ensures !done && target != Fsr ==> ProxyRested()
      ensures !done ==> CanEnter(target, f) == old(CanEnter(target, f))
      ensures !done && target == Dlss ==> CanPrepare(f) == old(CanPrepare(f)) && Exported(f) == old(Exported(f))
      ensures done && !old(RollsBack(target, f)) ==> CanReachDlss() == old(CanReachDlss())
      ensures old(slInitialized) ==> slInitialized && slFactoryExport == old(slFactoryExport)
      ensures old(SameVendor(f)) ==> SameVendor(f)
      ensures target != Dlss ==> slInitialized == old(slInitialized)
      ensures !done && !f.ask(FsrLeave) && old(stage) == NoStage && old(log).verdict.world.fsr != Stopped ==>
                log.verdict.world.fsr != Stopped
    {
      hide Judge, JudgeStep, Append, Exported, CanReachDlss, CanPrepare, CanEnter, SameVendor, Rules, SlHandles;
      if target == Fsr {
        DropExit();
      }
      var action := ResolveFsrExitAction(mode == Fsr, target == Fsr, fsrEnabled, stage);
      if action == PresentPassthrough {
        if !FsrProxyAlive() {
          assert false;  // the "proxy topology is unavailable" fallback is unreachable
        }
        StagedIsInv();
        return true, true;
      }
      if stage == PassthroughPresented {
        done, ok := BreakFsr(target, f);
      } else if fsrEnabled {
        done, ok := StopFsrFor(target, f, action == DisableAndPresentPassthrough);
      } else {
        return false, true;
      }
    }

    // -------------------------------------------------------------------------------------------
    // Leaving DLSS and entering the target
    // -------------------------------------------------------------------------------------------

    /** The DLSS-G option once the switch has tried to disable it. */
    function AfterDisable(g: Generation, f: Frame): Generation {
      if f.ask(DlssOff) then Stopped else AfterRefusal(g)
    }

    lemma ReadyForDlssOff()
      requires Core() && DlssCoherent() && dlssEnabled
      ensures slSetOptions
    {
      hide FsrHandles, Agrees, Rules;
    }

    method LeaveDlss(ok0: bool, f: Frame) returns (ok: bool)
      requires Core() && DlssCoherent()
      modifies `dlssEnabled, `dlssSuspended, `reflexLow, `log
      ensures Core() && !dlssEnabled && !dlssSuspended
      ensures ok == (ok0 && (old(dlssEnabled) ==> f.ask(DlssOff)))
      ensures log.verdict == old(log).verdict.(
                dlssOffCalls := log.verdict.dlssOffCalls, world := old(log).verdict.world.(
                dlss := if old(dlssEnabled) then AfterDisable(old(log).verdict.world.dlss, f)
                  else old(log).verdict.world.dlss))
    {
      hide Judge, JudgeStep, Append, AgreesWith, FsrHandles, SlHandles, RulesOf;
      ok := ok0;
      if dlssEnabled {
        ghost var v := log.verdict;
        RulesOutlastDlss(v, false, f.ask(DlssOff), true, false);
        SameAgreement(v.world, DlssSet(v, false, f.ask(DlssOff)).world);
        ReadyForDlssOff();
        var disabled := SwitchDlssOff(f.ask(DlssOff));
        dlssEnabled, dlssSuspended := false, false;
        ok := ok && disabled;
      } else if mode == Dlss && dlssSuspended {
        dlssSuspended := false;
      }
    }

    method EnsureFsrContext(f: Frame) returns (ok: bool)
      requires fsrLoaded && device != 0 && (fgCtx <==> fsrInitialized)
      modifies `fgCtx, `fsrInitialized, `log
      ensures ok == fsrInitialized == fgCtx == (old(fsrInitialized) || f.ask(FsrContext))
      ensures var v := old(log).verdict;
              log.verdict == if old(fsrInitialized) || !ok then v
                             else FsrVerdict(v, false, f.ask(FsrStartup))
      ensures log == if old(fsrInitialized) || !ok then old(log)
                     else Append(old(log), FsrConfigured(false, f.ask(FsrStartup)))
    {
      hide Judge;
      if fsrInitialized {
        return true;
      }
      fsrInitialized := TryInitFsr(f);
      return fsrInitialized;
    }

    /** What every entry starts from: both runtimes are disabled and some swapchain presents. */
    ghost predicate NothingEnabled()
      reads this
    {
      Core() && chain && !fsrEnabled && !dlssEnabled && !dlssSuspended
    }

    /** With no FSR proxy the frame-generation context goes alone. */
    method DropFsrContext(f: Frame)
      requires NothingEnabled() && stage == NoStage && !swapCtx
      modifies `fsrInitialized, `fsrEnabled, `fsrSuspended, `fgCtx, `swapCtx, `stage, `log
      ensures NothingEnabled() && stage == NoStage && !fgCtx && !swapCtx
      ensures log.verdict == old(log).verdict.(world := log.verdict.world)
      ensures log.verdict.world.dlss == old(log).verdict.world.dlss && log.verdict.world.residue == Clean
    {
      hide Judge, JudgeStep, Append, RulesOf;
      EmptyContexts(f);
    }

    /** With every context gone the renderer is built afresh: an old Streamline proxy goes with its device. */
    method Rebuild(forFsr: bool, f: Frame) returns (ok: bool)
      requires NothingEnabled() && stage == NoStage && !fgCtx && !swapCtx && (forFsr ==> fsrLoaded)
      modifies `device, `slDeviceSet, `slBoundDevice, `chain, `owner, `usesSl, `swapCtx, `reflexLow, `log
      ensures Core() && !usesSl
      ensures swapCtx == (RendererGranted(f) && forFsr && f.ask(FfxChain))
      ensures ok == chain == (RendererGranted(f) && (swapCtx || f.ask(PlainChain)))
      ensures log.verdict == old(log).verdict.(world := log.verdict.world)
      ensures log.verdict.world.residue == Clean && log.verdict.world.dlss == old(log).verdict.world.dlss
      ensures old(SameVendor(f)) ==> SameVendor(f)
    {
      hide Judge, JudgeStep, Append, Rules;
      ok := ReinitializeDx12(forFsr, f);
    }

    /** Replaces a swapchain FSR does not own: contexts destroyed, renderer rebuilt, preferably FSR-owned. */
    method BuildFsrRenderer(f: Frame) returns (ok: bool)
      requires NothingEnabled() && stage == NoStage && fsrLoaded && !swapCtx
      modifies `fsrInitialized, `fsrEnabled, `fsrSuspended, `fgCtx, `swapCtx, `stage,
               `device, `slDeviceSet, `slBoundDevice, `chain, `owner, `usesSl, `reflexLow, `log
      ensures Core() && stage == NoStage && !fsrEnabled && !fgCtx && !usesSl
      ensures ok == chain == (RendererGranted(f) && (f.ask(FfxChain) || f.ask(PlainChain)))
      ensures ok ==> swapCtx == f.ask(FfxChain)
      ensures log.verdict == old(log).verdict.(world := log.verdict.world)
      ensures log.verdict.world.dlss == old(log).verdict.world.dlss && log.verdict.world.residue == Clean
      ensures old(SameVendor(f)) ==> SameVendor(f)
    {
      hide Judge, JudgeStep, Append, SameVendor, Core, RendererGranted;
      DropFsrContext(f);
      ok := Rebuild(true, f);
    }

    lemma ChainHasOneProxy()
      requires Core()
      ensures swapCtx ==> !usesSl && log.verdict.world.chain == FsrChain
      ensures usesSl ==> slInitialized
    {
    }

    method ActivateFsr(f: Frame) returns (ok: bool)
      requires NothingEnabled() && stage == NoStage && fsrLoaded
      modifies `fsrInitialized, `fsrEnabled, `fsrSuspended, `fgCtx, `log
      ensures Core() && fsrEnabled == ok
      ensures ok == ((old(fgCtx) || f.ask(FsrContext)) && f.ask(FsrEnter))
      ensures ok ==> fgCtx && !fsrSuspended
      ensures ok && swapCtx ==> log.verdict.world.residue == Dirty && log.verdict.world.fsr == Running
      ensures !ok && log.verdict.world.residue == Dirty ==> log.verdict.world.life == HasFailed
      ensures log.verdict == old(log).verdict.(world := log.verdict.world)
      ensures log.verdict.world.dlss == old(log).verdict.world.dlss
    {
      hide Judge, JudgeStep, Append, SlHandles;
      ChainHasOneProxy();
      ok := EnsureFsrContext(f);
      if !ok {
        return false;
      }
      SetFsr(true, f.ask(FsrEnter));
      ok := fsrEnabled;
    }

    method LoadFsrRuntime(ok: bool) returns (loaded: bool)
      requires NothingEnabled()
      modifies `fsrLoaded
      ensures NothingEnabled() && loaded == fsrLoaded == (old(fsrLoaded) || ok)
    {
      hide Judge;
      if !fsrLoaded && ok {
        fsrLoaded := true;
      }
      return fsrLoaded;
    }

    /** What an FSR exit or a dirty proxy takes. */
    lemma ProxyIsFromFsr()
      requires Core()
      ensures StagedFsrExit(stage) || log.verdict.world.residue == Dirty ==> FromFsr() && fgCtx && swapCtx
      ensures fgCtx || swapCtx ==> FromFsr()
    {
    }

    lemma ProxyIsOwned()
      requires Core() && chain
      ensures (swapCtx <==> owner == FsrOwner) && (fgCtx || swapCtx ==> fsrLoaded) && (swapCtx ==> !usesSl)
      ensures (log.verdict.world.residue == Dirty ==> swapCtx) && (usesSl ==> slInitialized)
    {
      hide Rules;
    }

    method EnterFsr(ok0: bool, f: Frame) returns (ok: bool)
      requires NothingEnabled() && stage == NoStage
      modifies `fsrLoaded, `fsrInitialized, `fsrEnabled, `fsrSuspended, `fgCtx, `swapCtx, `stage,
               `device, `slDeviceSet, `slBoundDevice, `chain, `owner, `usesSl, `reflexLow, `log
      ensures Core() && stage == NoStage && fsrEnabled == ok
      ensures ok ==> chain && fgCtx && !usesSl && !fsrSuspended
      ensures var keep := old(swapCtx);
              ok == (ok0 && (old(fsrLoaded) || f.ask(FsrLoad))
                     && (keep || (RendererGranted(f) && (f.ask(FfxChain) || f.ask(PlainChain))))
                     && ((keep && old(fgCtx)) || f.ask(FsrContext)) && f.ask(FsrEnter))
      ensures !ok0 || old(swapCtx) ==> chain && swapCtx == old(swapCtx) && usesSl == old(usesSl)
      ensures !ok0 ==> fgCtx == old(fgCtx) && log == old(log)
      ensures ok ==>
                swapCtx == (old(swapCtx) || f.ask(FfxChain))
                && (swapCtx ==> log.verdict.world.residue == Dirty && log.verdict.world.fsr == Running)
      ensures !ok && ok0 && log.verdict.world.residue == Dirty ==> log.verdict.world.life == HasFailed
      ensures log.verdict == old(log).verdict.(world := log.verdict.world)
      ensures log.verdict.world.dlss == old(log).verdict.world.dlss
      ensures old(SameVendor(f)) ==> SameVendor(f)
    {
      hide Judge, JudgeStep, Append, SameVendor, Core, RendererGranted;
      ProxyIsOwned();
      var loaded := LoadFsrRuntime(f.ask(FsrLoad));
      if !ok0 || !loaded {
        return false;
      }
      if owner != FsrOwner || !swapCtx {
        ok := BuildFsrRenderer(f);
        if !ok {
          return false;
        }
      }
      ok := ActivateFsr(f);
    }

    /** A dirty proxy is only ever carried past the exit steps by a failed FSR call. */
    ghost predicate ProxyRested()
      reads `log
    {
      log.verdict.world.residue == Dirty ==> log.verdict.world.life == HasFailed
    }

    predicate FromFsr()
      reads `owner, `fgCtx, `swapCtx
    {
      owner == FsrOwner || fgCtx || swapCtx
    }

    /** Whether the replacement swapchain gets made; without a Streamline factory a first one is made twice. */
    predicate ReplacementGranted(exported: bool, f: Frame)
      reads `owner, `fgCtx, `swapCtx
    {
      && (FromFsr() ==> f.ask(Factory) && f.ask(PlainChain))
      && ((FromFsr() && exported) || (f.ask(FactoryAgain) && f.ask(PlainChainAgain)))
    }

    /** Both contexts go, and the rules survive it: a dirty proxy has been refused something. */
    method EmptyContexts(f: Frame)
      requires FsrHandles() && Rules() && ProxyRested()
      requires (log.verdict.world.residue == Dirty ==> swapCtx) && log.verdict.world.fsr != Running
      modifies `fsrInitialized, `fsrEnabled, `fsrSuspended, `fgCtx, `swapCtx, `stage, `log
      ensures !fgCtx && !swapCtx && !fsrEnabled && !fsrSuspended && !fsrInitialized && stage == NoStage && Rules()
      ensures log.verdict == old(log).verdict.(world := log.verdict.world,
                quiet := if old(swapCtx) && old(log).verdict.world.residue == Dirty then Broken
                         else old(log).verdict.quiet)
      ensures log.verdict.world.residue == Clean && log.verdict.world.fsr != Running
      ensures log.verdict.world.dlss == old(log).verdict.world.dlss
      ensures !old(swapCtx) ==> log.verdict.world.chain == old(log).verdict.world.chain
                                && log.verdict.world.image == old(log).verdict.world.image
    {
      hide Judge, JudgeStep, Append, TornDown;
      TornDownMeans(log.verdict, fgCtx, swapCtx, f);
      DestroyFsrContexts(f);
    }

    /** The resting FSR proxy and its contexts make way for a fresh swapchain. */
    method ReplaceFsrSurface(useSl: bool, f: Frame) returns (ok: bool)
      requires FsrHandles() && SlHandles() && Rules() && ProxyRested() && chain
      requires useSl ==> StreamlineReady()
      requires (log.verdict.world.residue == Dirty ==> swapCtx) && log.verdict.world.fsr != Running
      modifies `fsrInitialized, `fsrEnabled, `fsrSuspended, `fgCtx, `swapCtx, `stage, `chain, `owner, `usesSl, `log
      ensures FsrHandles() && SlHandles() && Rules() && log.verdict.world.chain == ChainKindNow()
      ensures ok == chain == (f.ask(Factory) && f.ask(PlainChain)) && usesSl == (ok && useSl && slFactoryExport)
      ensures stage == NoStage && !fsrEnabled && !fgCtx && !swapCtx
      ensures log.verdict == old(log).verdict.(world := log.verdict.world,
                quiet := if old(swapCtx) && old(log).verdict.world.residue == Dirty
                  then Broken else old(log).verdict.quiet)
      ensures log.verdict.world.image == NotShown && log.verdict.world.fsr != Running
      ensures log.verdict.world.residue == Clean && log.verdict.world.dlss == old(log).verdict.world.dlss
    {
      hide Judge, JudgeStep, Append, RulesOf, NewChain, ProxyRested, SlHandles, StreamlineReady;
      EmptyContexts(f);
      ghost var v := log.verdict;
      ok := RecreateSwapChain(useSl, f.ask(Factory), f.ask(PlainChain));
      NewChainKeeps(v, ChainKindNow(), ok);
    }

    /** Without the Streamline factory this makes one more plain swapchain. */
    method ReplacePlainSurface(f: Frame) returns (ok: bool)
      requires FsrHandles() && SlHandles() && Rules() && StreamlineReady() && chain && !swapCtx
      modifies `chain, `owner, `usesSl, `swapCtx, `log
      ensures FsrHandles() && SlHandles() && Rules() && !swapCtx
      ensures ok == chain == (f.ask(FactoryAgain) && f.ask(PlainChainAgain)) && usesSl == (ok && slFactoryExport)
      ensures log.verdict == old(log).verdict.(world := NewChain(old(log).verdict.world, ChainKindNow(), ok))
    {
      hide Judge, Rules, SlHandles;
      ok := RecreateSwapChain(true, f.ask(FactoryAgain), f.ask(PlainChainAgain));
    }

    /** Both ways to a fresh surface: an FSR proxy gives way, and what is still no Streamline swapchain is replaced. */
    method ReplaceSurface(f: Frame) returns (ok: bool)
      requires NothingEnabled() && StreamlineReady() && ProxyRested()
      requires stage == NoStage || stage == PassthroughPresented
      requires FromFsr() || !usesSl
      modifies `fsrInitialized, `fsrEnabled, `fsrSuspended, `fgCtx, `swapCtx, `stage, `retirePending,
               `chain, `owner, `usesSl, `log
      ensures FsrHandles() && SlHandles() && Rules() && log.verdict.world.chain == ChainKindNow()
      ensures stage == NoStage && !fsrEnabled && !fgCtx && !swapCtx
      ensures ok == chain == old(ReplacementGranted(slFactoryExport, f)) && usesSl == (ok && slFactoryExport)
      ensures retirePending == if old(FromFsr()) then f.ask(Factory) && f.ask(PlainChain) else old(retirePending)
      ensures ok ==> retirePending == old(FromFsr() || retirePending)
      ensures log.verdict == old(log).verdict.(world := log.verdict.world,
                quiet := if old(swapCtx) && old(log).verdict.world.residue == Dirty
                  then Broken else old(log).verdict.quiet)
      ensures log.verdict.world.image == NotShown && log.verdict.world.fsr != Running
      ensures log.verdict.world.residue == Clean && log.verdict.world.dlss == old(log).verdict.world.dlss
    {
      hide Judge, JudgeStep, Append, Rules, NewChain, ProxyRested;
      ok := true;
      if FromFsr() {
        ok := ReplaceFsrSurface(true, f);
        retirePending := ok;
      }
      if ok && !usesSl {
        ghost var v := log.verdict;
        ok := ReplacePlainSurface(f);
        NewChainKeeps(v, ChainKindNow(), ok);
      }
    }

    /** With no FSR handle left and nothing staged, the pieces make up the core invariant. */
    lemma BareIsCore()
      requires FsrHandles() && SlHandles() && Rules() && log.verdict.world.chain == ChainKindNow()
      requires stage == NoStage && !usesSl && !fgCtx && !swapCtx
      requires log.verdict.world.residue == Clean && log.verdict.world.fsr != Running
      ensures Core()
    {
      hide FsrHandles, SlHandles, Rules;
    }

    /** OFF in name, on a fresh surface that waits for its first image. */
    method AwaitFirstImage()
      requires FsrHandles() && SlHandles() && Rules() && log.verdict.world.chain == ChainKindNow()
      requires chain && slInitialized && usesSl == slFactoryExport && !fgCtx && !swapCtx
      requires log.verdict.world.residue == Clean && log.verdict.world.fsr != Running
      requires log.verdict.world.image == NotShown
      modifies `mode, `stage, `log
      ensures Core() && mode == Off && stage == ReplacementPresentPending
      ensures log.verdict == ModeVerdict(old(log).verdict, true)
    {
      hide Judge, JudgeStep, Append, RulesOf, FsrHandles, SlHandles;
      mode, stage := Off, ReplacementPresentPending;
      RecordMode(true);
    }

    /** Streamline is ready: the surface is replaced, and its first Present comes before any activation. */
    method StageReplacement(f: Frame) returns (ok: bool)
      requires NothingEnabled() && StreamlineReady() && ProxyRested()
      requires stage == NoStage || stage == PassthroughPresented
      requires FromFsr() || !usesSl
      modifies `fsrInitialized, `fsrEnabled, `fsrSuspended, `fgCtx, `swapCtx, `stage, `retirePending,
               `chain, `owner, `usesSl, `mode, `log
      ensures Core() && !fsrEnabled && !fgCtx && !swapCtx
      ensures ok == chain == old(ReplacementGranted(slFactoryExport, f)) && usesSl == (ok && slFactoryExport)
      ensures ok ==> mode == Off && stage == ReplacementPresentPending && log.verdict.world.image == NotShown
                     && !log.verdict.world.fsrMode && !log.verdict.world.stray
      ensures !ok ==> mode == old(mode) && stage == NoStage
      ensures retirePending == if old(FromFsr()) then f.ask(Factory) && f.ask(PlainChain) else old(retirePending)
      ensures ok ==> retirePending == old(FromFsr() || retirePending)
      ensures log.verdict == old(log).verdict.(world := log.verdict.world,
                quiet := if old(swapCtx) && old(log).verdict.world.residue == Dirty
                  then Broken else old(log).verdict.quiet)
      ensures log.verdict.world.residue == Clean && log.verdict.world.dlss == old(log).verdict.world.dlss
    {
      hide Judge, JudgeStep, Append, Rules, FsrHandles, SlHandles, ReplacementGranted, ProxyRested, Core;
      ok := ReplaceSurface(f);
      if ok {
        AwaitFirstImage();
      } else {
        BareIsCore();
      }
    }

    /** DLSS-G goes on: the Streamline swapchain has been shown. */
    method ActivateDlss(f: Frame) returns (ok: bool)
      requires NothingEnabled() && StreamlineReady() && usesSl && stage == NoStage
      modifies `dlssEnabled, `dlssSuspended, `reflexLow, `log
      ensures Core() && dlssEnabled == ok == f.ask(DlssOn) && !dlssSuspended
      ensures log.verdict == old(log).verdict.(world := old(log).verdict.world.(
                dlss := if ok then Running else old(log).verdict.world.dlss))
    {
      hide Judge, JudgeStep, Append, AgreesWith, FsrHandles, SlHandles, RulesOf;
      ghost var v := log.verdict;
      ShownStreamline();
      DlssVerdict(v, true, f.ask(DlssOn));
      RulesOutlastDlss(v, true, f.ask(DlssOn), false, f.ask(DlssOn));
      SameAgreement(v.world, DlssSet(v, true, f.ask(DlssOn)).world);
      ok := SetDlssMode(true, f.ask(DlssOn), f.ask(ReflexOn));
      if ok {
        dlssEnabled, dlssSuspended := true, false;
      }
    }

    method EnterDlss(ok0: bool, f: Frame) returns (done: bool, ok: bool)
      requires NothingEnabled() && ProxyRested()
      requires stage == NoStage || stage == PassthroughPresented
      modifies `slInitialized, `slFactoryExport, `slDeviceSet, `slBoundDevice, `slSetOptions, `slGetState, `slReflex,
               `dlssInitialized, `dlssEnabled, `dlssSuspended, `reflexLow,
               `fsrInitialized, `fsrEnabled, `fsrSuspended, `fgCtx, `swapCtx, `stage, `retirePending,
               `chain, `owner, `usesSl, `mode, `log
      ensures Core() && !fsrEnabled && !dlssSuspended && dlssEnabled == (ok && !done)
      ensures done ==> ok && chain && !swapCtx && !fgCtx && mode == Off && stage == ReplacementPresentPending
                       && log.verdict.world.image == NotShown && !log.verdict.world.fsrMode && !log.verdict.world.stray
                       && StreamlineReady() && usesSl == slFactoryExport == old(Exported(f))
      ensures !done ==> mode == old(mode) && (stage == NoStage || stage == old(stage))
      ensures done ==> retirePending == old(FromFsr() || retirePending)
      ensures !done && ok0 && old(CanPrepare(f)) ==> stage == NoStage
      ensures !done && ok ==> usesSl && chain && !fgCtx
      ensures ok == (ok0 && old(CanPrepare(f)) && if old(FromFsr() || !usesSl) then chain else f.ask(DlssOn))
      ensures done == (ok0 && old(CanPrepare(f) && (FromFsr() || !usesSl)) && chain)
      ensures ok0 && old(CanPrepare(f) && (FromFsr() || !usesSl)) ==> chain == old(ReplacementGranted(Exported(f), f))
      ensures !ok0 || !old(CanPrepare(f)) ==>
                chain && swapCtx == old(swapCtx) && fgCtx == old(fgCtx) && stage == old(stage) && usesSl == old(usesSl)
                && log.verdict == old(log).verdict
      ensures ok0 && old(CanPrepare(f)) ==> log.verdict.world.residue == Clean
      ensures log.verdict == old(log).verdict.(world := log.verdict.world,
                quiet := if ok0 && old(CanPrepare(f) && swapCtx) && old(log).verdict.world.residue == Dirty then Broken
                         else old(log).verdict.quiet)
      ensures log.verdict.world.dlss == if dlssEnabled then Running else old(log).verdict.world.dlss
      ensures old(slInitialized) ==> slInitialized && slFactoryExport == old(slFactoryExport)
      ensures old(SameVendor(f)) ==> SameVendor(f)
    {
      hide Judge, JudgeStep, Append, CanPrepare, Core, SameVendor, ReplacementGranted, Exported, FromFsr;
      ok := ok0;
      ProxyIsFromFsr();
      if ok {
        ok := PrepareDlss(f);
      }
      if ok && (FromFsr() || !usesSl) {
        ok := StageReplacement(f);
        return ok, ok;
      }
      if ok {
        ok := ActivateDlss(f);
      }
      done := false;
    }

    method LeaveFsrContexts(f: Frame) returns (ok: bool)
      requires NothingEnabled() && stage == NoStage && !(fgCtx && swapCtx)
      modifies `fsrLoaded, `fsrInitialized, `fsrEnabled, `fsrSuspended, `fgCtx, `swapCtx, `stage,
               `chain, `owner, `usesSl, `log
      ensures Core() && !fsrEnabled && !fgCtx && !swapCtx && !usesSl && stage == NoStage
      ensures ok == chain == (f.ask(Factory) && f.ask(PlainChain))
      ensures fsrLoaded == (old(fsrLoaded) && !cfg.fsrReloadRuntime)
      ensures log.verdict == old(log).verdict.(world := log.verdict.world)
      ensures log.verdict.world.residue == Clean && log.verdict.world.dlss == old(log).verdict.world.dlss
    {
      hide Judge, JudgeStep, Append;
      ok := ReplaceFsrSurface(false, f);
      MaybeUnloadFsrRuntime();
    }

    /** The proxy stays: its exit is over. */
    method KeepProxy()
      requires Core() && (stage == NoStage || stage == PassthroughPresented)
      modifies `stage
      ensures Core() && stage == NoStage
    {
      hide Judge, Rules, FsrHandles, SlHandles;
      stage := NoStage;
    }

    /** A retired FSR runtime is only dropped when nothing of it is left. */
    method RetireBehindOff()
      requires Core()
      modifies `fsrLoaded, `fsrInitialized, `retirePending
      ensures Core() && !retirePending && fsrLoaded == (old(fsrLoaded) && !(old(retirePending) && Unloads()))
    {
      hide Judge, Rules, Agrees, SlHandles;
      RetireFsrRuntime();
    }

    /** A complete FSR proxy stays and presents disabled; anything else gives way to a native swapchain. */
    method EnterOff(ok0: bool, f: Frame) returns (ok: bool)
      requires NothingEnabled() && (stage == NoStage || stage == PassthroughPresented)
      modifies `fsrLoaded, `fsrInitialized, `fsrEnabled, `fsrSuspended, `fgCtx, `swapCtx, `stage, `retirePending,
               `device, `slDeviceSet, `slBoundDevice, `chain, `owner, `usesSl, `reflexLow, `log
      ensures Core() && !fsrEnabled
      ensures ok == (ok0 && chain)
      ensures ok ==> stage == NoStage && !usesSl
      ensures retirePending == (!ok && old(retirePending))
      ensures !ok0 ==> chain && stage == old(stage) && swapCtx == old(swapCtx) && fgCtx == old(fgCtx)
                       && usesSl == old(usesSl) && log == old(log)
      ensures ok0 && !ok ==> stage == NoStage && !usesSl
      // which surface OFF ends on
      ensures ok0 && old(swapCtx && fgCtx) ==> ok && swapCtx && fgCtx && log == old(log)
      ensures ok0 && !old(swapCtx && fgCtx) && old(fgCtx || swapCtx || slInitialized) ==>
                !fgCtx && !swapCtx && log.verdict.world.residue == Clean
      ensures ok0 && old(fgCtx != swapCtx) ==> ok == (f.ask(Factory) && f.ask(PlainChain))
      ensures ok0 && !old(fgCtx || swapCtx) ==>
                ok == (old(slInitialized) ==> RendererGranted(f) && f.ask(PlainChain))
      ensures ok0 && !old(fgCtx || swapCtx || slInitialized) ==> log == old(log)
      ensures log.verdict == old(log).verdict.(world := log.verdict.world)
      ensures log.verdict.world.dlss == old(log).verdict.world.dlss
      ensures log.verdict.world.residue == Dirty ==> old(log).verdict.world.residue == Dirty
      ensures old(SameVendor(f)) ==> SameVendor(f)
    {
      hide Judge, JudgeStep, Append, SameVendor, RendererGranted, Core;
      ProxyIsOwned();
      ProxyIsFromFsr();
      ok := ok0;
      if !ok {
        return;
      }
      if owner == FsrOwner && fgCtx && swapCtx {
        KeepProxy();
      } else if fgCtx || swapCtx {
        ok := LeaveFsrContexts(f);
      } else if usesSl || slInitialized {
        ok := Rebuild(false, f);
      }
      if ok {
        RetireBehindOff();
      }
    }

    // -------------------------------------------------------------------------------------------
    // One mode switch
    // -------------------------------------------------------------------------------------------

    /** The FSR runtime is no longer to be retired once its successor is gone, or FSR is wanted again. */
    predicate StillRetires(target: Mode)
      reads `stage, `usesSl, `retirePending
    {
      && retirePending && (stage == ReplacementPresentPending ==> usesSl)
      && (stage == ReplacementPresented ==> target != Fsr)
    }

    /** A replacement swapchain waits for its first image; once shown, the request is followed afresh. */
    method ResumeReplacement(target: Mode) returns (waiting: bool)
      requires Steady() && chain
      modifies `stage, `retirePending
      ensures Steady() && waiting == old(AwaitsReplacement())
      ensures stage == if IsReplacementStage(old(stage)) && !waiting then NoStage else old(stage)
      ensures retirePending == old(StillRetires(target))
      // what follows is decided as before
      ensures forall f :: StaysForPassthrough(target, f) == old(StaysForPassthrough(target, f))
                          && RollsBack(target, f) == old(RollsBack(target, f))
                          && Departs(target, f) == old(Departs(target, f))
                          && TearsDownDirty(target, f) == old(TearsDownDirty(target, f))
                          && (waiting || GoesOn(target, f) == old(GoesOn(target, f)))
      ensures waiting ==> forall f :: !RollsBack(target, f) && !TearsDownDirty(target, f)
    {
      hide Judge;
      if stage == ReplacementPresentPending {
        if chain && usesSl {
          return true;
        }
        stage, retirePending := NoStage, false;
      } else if stage == ReplacementPresented {
        stage := NoStage;
        if target == Fsr {
          retirePending := false;
        }
      }
      return false;
    }

    /** The mode a failed switch falls back to. */
    function Fallback(target: Mode): Mode
      reads `fsrEnabled, `dlssEnabled, `dlssSuspended
    {
      if target == Off then Off
      else if fsrEnabled then Fsr
      else if dlssEnabled || dlssSuspended then Dlss
      else Off
    }

    /** Whether the switch left what its outcome requires: the target's runtime enabled, or nothing. */
    ghost predicate Outcome(target: Mode, ok: bool)
      reads this
    {
      && Core() && !dlssSuspended
      && fsrEnabled == (ok && target == Fsr)
      && dlssEnabled == (ok && target == Dlss)
      && (ok ==> chain && stage == NoStage && usesSl == (target == Dlss))
      && (ok && target == Fsr ==> fgCtx)
      && (stage == NoStage || (stage == PassthroughPresented && log.verdict.world.life == HasFailed))
      && (fsrEnabled || ProxyRested())
    }

    /** What the entry steps start from. */
    ghost predicate ReadyToEnter(target: Mode, ok0: bool)
      reads this
    {
      && NothingEnabled()
      && (stage == NoStage || (stage == PassthroughPresented && target != Fsr))
      && (stage == PassthroughPresented && !ok0 ==> log.verdict.world.life == HasFailed)
      && (stage == PassthroughPresented && target == Dlss ==> StreamlineReady())
      && (!ok0 || target != Fsr ==> ProxyRested())
    }

    /** A replacement swapchain is in place and waits for its first Present. */
    ghost predicate Replaced()
      reads this
    {
      && Core() && chain && mode == Off && stage == ReplacementPresentPending && StreamlineReady()
      && !swapCtx && !fgCtx && !fsrEnabled && !dlssEnabled && !dlssSuspended && usesSl == slFactoryExport
      && log.verdict.world.image == NotShown && !log.verdict.world.fsrMode && !log.verdict.world.stray
    }

    /** Whether entering the target will succeed, step by step. */
    predicate CanEnter(target: Mode, f: Frame)
      reads `slInitialized, `slDeviceSet, `device, `slBoundDevice, `dlssInitialized, `slSetOptions, `slGetState,
            `slFactoryExport, `fgCtx, `swapCtx, `owner, `usesSl, `fsrLoaded
    {
      match target
      case Off =>
        (fgCtx && swapCtx)
        || (if fgCtx || swapCtx then f.ask(Factory) && f.ask(PlainChain)
            else slInitialized ==> RendererGranted(f) && f.ask(PlainChain))
      case Dlss =>
        CanPrepare(f) &&
        if FromFsr() || !usesSl then
          ReplacementGranted(Exported(f), f)
        else f.ask(DlssOn)
      case Fsr =>
        && (fsrLoaded || f.ask(FsrLoad))
        && (swapCtx || (RendererGranted(f) && (f.ask(FfxChain) || f.ask(PlainChain))))
        && ((swapCtx && fgCtx) || f.ask(FsrContext))
        && f.ask(FsrEnter)
    }

    method EnterTarget(target: Mode, ok0: bool, f: Frame) returns (done: bool, ok: bool)
      requires ReadyToEnter(target, ok0)
      modifies `fsrLoaded, `slInitialized, `slFactoryExport, `slDeviceSet, `slBoundDevice, `slSetOptions, `slGetState,
               `slReflex, `dlssInitialized, `dlssEnabled, `dlssSuspended, `reflexLow,
               `fsrInitialized, `fsrEnabled, `fsrSuspended, `fgCtx, `swapCtx, `stage, `retirePending, `device,
               `chain, `owner, `usesSl, `mode, `log
      ensures if done then Replaced() else Outcome(target, ok) && mode == old(mode)
      ensures ok == (ok0 && old(CanEnter(target, f)))
      ensures done == (ok && target == Dlss && old(FromFsr() || !usesSl))
      ensures !ok0 ==>
                chain && stage == old(stage) && swapCtx == old(swapCtx) && fgCtx == old(fgCtx)
                && usesSl == old(usesSl)
                && log.verdict.world == old(log).verdict.world
      ensures ok && target == Fsr ==>
                swapCtx == (old(swapCtx) || f.ask(FfxChain))
                && (swapCtx ==> log.verdict.world.residue == Dirty && log.verdict.world.fsr == Running)
      ensures log.verdict == old(log).verdict.(world := log.verdict.world,
                quiet := if ok0 && target == Dlss && old(CanPrepare(f) && swapCtx)
                            && old(log).verdict.world.residue == Dirty
                         then Broken else old(log).verdict.quiet)
      ensures log.verdict.world.dlss == if dlssEnabled then Running else old(log).verdict.world.dlss
      ensures old(slInitialized) ==> slInitialized && slFactoryExport == old(slFactoryExport)
      ensures done ==> slFactoryExport == old(Exported(f))
      ensures old(SameVendor(f)) ==> SameVendor(f)
      ensures target != Dlss ==> slInitialized == old(slInitialized)
      ensures target == Dlss && !old(CanPrepare(f)) ==> swapCtx == old(swapCtx) && fgCtx == old(fgCtx)
    {
      hide Judge, JudgeStep, Append, ReplacementGranted, Exported, Rules;
      done := false;
      match target {
        case Off => ok := EnterOff(ok0, f);
        case Dlss => done, ok := EnterDlss(ok0, f);
        case Fsr => ok := EnterFsr(ok0, f);
      }
    }

    /** What the judge is told of the mode. */
    ghost function ModeVerdict(v: Verdict, ok: bool): Verdict
      reads `mode
    {
      v.(world := v.world.(fsrMode := mode == Fsr, stray := false), switches := if ok then v.switches else HasFailed)
    }

    method RecordMode(ok: bool)
      modifies `log
      ensures old(Core()) ==> Core()
      ensures old(Rules()) ==> Rules()
      ensures log.calls == old(log).calls + [ModeSet(mode == Fsr, ok)]
      ensures log.verdict == ModeVerdict(old(log).verdict, ok)
    {
      hide Judge, FsrHandles, SlHandles, AgreesWith;
      SameAgreement(log.verdict.world, ModeVerdict(log.verdict, ok).world);
      log := Append(log, ModeSet(mode == Fsr, ok));
    }

    lemma OutcomeIsKept(target: Mode, ok: bool)
      requires Outcome(target, ok) && !switchPending && !togglePending && (running ==> chain)
      requires mode == if ok then target else Off
      requires log.verdict.world.fsrMode == (mode == Fsr) && !log.verdict.world.stray
      requires ok || log.verdict.switches == HasFailed
      ensures Inv() && !IsReplacementStage(stage)
    {
      hide FsrHandles, SlHandles, Rules;
    }

    /** Nothing is enabled after a failure, so the fallback to an enabled runtime never applies. */
    method AbandonSwitch(target: Mode)
      requires Outcome(target, false)
      modifies `fsrLoaded, `fsrInitialized, `retirePending, `running, `mode
      ensures Outcome(target, false) && mode == Off && !retirePending
      ensures fsrLoaded == (old(fsrLoaded) && !(old(retirePending) && chain && Unloads()))
      ensures running == (old(running) && chain)
    {
      hide Judge, JudgeStep, Rules, SlHandles;
      if chain {
        RetireFsrRuntime();
      } else {
        retirePending := false;
      }
      mode := Fallback(target);
      if !chain {
        running := false;
      }
    }

    method Settle(target: Mode, ok: bool)
      requires Outcome(target, ok) && switchPending && !togglePending
      modifies `fsrLoaded, `fsrInitialized, `retirePending, `running, `mode, `switchPending, `log
      ensures Inv() && Outcome(target, ok) && !switchPending && !IsReplacementStage(stage)
      ensures mode == if ok then target else Off
      ensures running == (old(running) && chain)
      ensures log.calls == old(log).calls + [ModeSet(mode == Fsr, ok)]
      ensures log.verdict == ModeVerdict(old(log).verdict, ok)
    {
      hide Judge, JudgeStep, Append, Core, Inv;
      if !ok {
        AbandonSwitch(target);
      } else {
        mode := target;
      }
      switchPending := false;
      RecordMode(ok);
      OutcomeIsKept(target, ok);
    }

    /** The request only waits: its replacement swapchain has not been shown. */
    predicate AwaitsReplacement()
      reads `stage, `usesSl
    {
      stage == ReplacementPresentPending && usesSl
    }

    /** FSR is left in stages: the disabled proxy must present once before anything else happens. */
    predicate StaysForPassthrough(target: Mode, f: Frame)
      reads `mode, `stage, `fsrEnabled, `swapCtx
    {
      && mode == Fsr && target != Fsr
      && (stage == PresentPending || (fsrEnabled && swapCtx && f.ask(FsrLeave)))
    }

    /** The request is carried through to its end, or fails. */
    predicate GoesOn(target: Mode, f: Frame)
      reads `mode, `stage, `usesSl, `fsrEnabled, `swapCtx, `slInitialized, `slDeviceSet, `device, `slBoundDevice,
            `dlssInitialized, `slSetOptions, `slGetState
    {
      !AwaitsReplacement() && !StaysForPassthrough(target, f) && !RollsBack(target, f)
    }

    /** The target is reached through a replacement swapchain, whose first image comes first. */
    predicate Replaces(target: Mode)
      reads `owner, `fgCtx, `swapCtx, `usesSl
    {
      target == Dlss && (FromFsr() || !usesSl)
    }

    /** The mode after a switch request. */
    function ModeAfter(target: Mode, f: Frame): Mode
      reads `mode, `stage, `usesSl, `fsrEnabled, `swapCtx, `slInitialized, `slDeviceSet, `device, `slBoundDevice,
            `dlssInitialized, `slSetOptions, `slGetState, `dlssEnabled, `slFactoryExport, `fgCtx, `owner, `fsrLoaded
    {
      if !GoesOn(target, f) then mode
      else if Departs(target, f) && CanEnter(target, f) && !Replaces(target) then target
      else Off
    }

    /** The request waits for an image. */
    predicate StillPending(target: Mode, f: Frame)
      reads `mode, `stage, `usesSl, `fsrEnabled, `swapCtx, `slInitialized, `slDeviceSet, `device, `slBoundDevice,
            `dlssInitialized, `slSetOptions, `slGetState, `dlssEnabled, `slFactoryExport, `fgCtx, `owner, `fsrLoaded
    {
      if GoesOn(target, f) then Departs(target, f) && CanEnter(target, f) && Replaces(target)
      else AwaitsReplacement() || StaysForPassthrough(target, f)
    }

    /** Whether disabling and draining what is enabled succeeds. */
    predicate Departs(target: Mode, f: Frame)
      reads `stage, `fsrEnabled, `swapCtx, `dlssEnabled
    {
      && (if target != Fsr && stage == PassthroughPresented then f.ask(FsrWait)
          else fsrEnabled ==> f.ask(FsrLeave) && (swapCtx ==> f.ask(FsrWait)))
      && (dlssEnabled ==> f.ask(DlssOff))
    }

    /** Leaves whatever is enabled; `done` when the switch ends here for this frame. */
    method Depart(target: Mode, f: Frame) returns (done: bool, ok: bool)
      requires Steady() && chain && switchPending && !IsReplacementStage(stage)
      modifies `slInitialized, `slFactoryExport, `slDeviceSet, `slBoundDevice, `slSetOptions, `slGetState, `slReflex,
               `dlssInitialized, `reflexLow, `stage, `fsrSuspended, `fsrEnabled, `switchPending, `dlssEnabled,
               `dlssSuspended, `log
      ensures if done then Inv() else ReadyToEnter(target, ok)
      ensures done == old(StaysForPassthrough(target, f) || RollsBack(target, f))
      ensures done && !old(RollsBack(target, f)) ==> ok && stage == PresentPending && switchPending && !fsrEnabled
      ensures done && old(RollsBack(target, f)) ==> !ok && stage == NoStage && !switchPending
                                                    && fsrEnabled == f.ask(FsrRollback)
      ensures done ==> dlssEnabled == old(dlssEnabled)
      ensures !done ==> switchPending && ok == old(Departs(target, f))
                        && stage == if target == Fsr then NoStage else old(stage)
      ensures !done ==>
                CanEnter(target, f) == old(CanEnter(target, f))
                && (target == Dlss ==> Exported(f) == old(Exported(f)))
      ensures !done && target == Dlss ==> CanPrepare(f) == old(CanPrepare(f))
      ensures done && !old(RollsBack(target, f)) ==> CanReachDlss() == old(CanReachDlss())
      ensures old(slInitialized) ==> slInitialized && slFactoryExport == old(slFactoryExport)
      // what the judge saw
      ensures log.verdict == old(log).verdict.(world := log.verdict.world,
                                               dlssOffCalls := log.verdict.dlssOffCalls)
      ensures !done ==> log.verdict.world.residue == old(log).verdict.world.residue
      ensures log.verdict.world.dlss == if !done && old(dlssEnabled) then AfterDisable(old(log).verdict.world.dlss, f)
                                        else old(log).verdict.world.dlss
      ensures old(SameVendor(f)) ==> SameVendor(f)
      ensures target != Dlss ==> slInitialized == old(slInitialized)
      ensures !done && !f.ask(FsrLeave) && old(stage == NoStage && !dlssEnabled) ==>
                (old(log).verdict.world.fsr != Stopped ==> log.verdict.world.fsr != Stopped)
    {
      hide Judge, JudgeStep, Append, CanPrepare, CanEnter, Exported, CanReachDlss, RollsBack, SameVendor, Core, Inv;
      done, ok := LeaveFsr(target, f);
      if done {
        return;
      }
      ok := LeaveDlss(ok, f);
    }

    /** The one way a proxy is torn down without a quiet image: FSR was running, or left running, under OFF. */
    ghost predicate TearsDownDirty(target: Mode, f: Frame)
      reads this
    {
      && target == Dlss && mode == Off && stage == NoStage && log.verdict.world.residue == Dirty
      && CanPrepare(f) && (fsrEnabled ==> f.ask(FsrLeave) && f.ask(FsrWait))
    }

    /**
     The same read off the calls themselves: FSR was enabled on the live proxy and no image with FSR off has been
     shown through it since. With FSR disabled that takes a refused Off, or an Off whose image has not come; and FSR
     refused the proxy something in any case.
     */
    lemma TearsDownDirtyMeans(target: Mode, f: Frame)
      requires Steady()
      ensures TearsDownDirty(target, f) <==>
                && target == Dlss && mode == Off && stage == NoStage && CanPrepare(f)
                && (fsrEnabled ==> f.ask(FsrLeave) && f.ask(FsrWait))
                && exists j :: DirtySince(log.calls, j, |log.calls|)
      ensures TearsDownDirty(target, f) ==> RefusedSinceCreation(log.calls, |log.calls|)
      ensures TearsDownDirty(target, f) && !fsrEnabled ==>
                FsrOffLingersAt(log.calls, |log.calls|) || exists o :: OffNotShown(log.calls, o)
    {
      hide CanPrepare, Judge;
      ResidueMeaning(log.calls);
      LifeMeaning(log.calls);
      FsrStuckMeaning(log.calls);
      DirtyCause(log.calls);
    }

    lemma DirtyTearDown(target: Mode, f: Frame)
      requires Steady() && !IsReplacementStage(stage)
      ensures !(StaysForPassthrough(target, f) && RollsBack(target, f)) && !(switchPending && togglePending)
      ensures GoesOn(target, f) <==> !StaysForPassthrough(target, f) && !RollsBack(target, f)
      ensures RollsBack(target, f) ==> stage == PassthroughPresented && target == Dlss
      ensures StaysForPassthrough(target, f) ==> mode == Fsr && target != Fsr && (stage == NoStage ==> f.ask(FsrLeave))
      ensures StaysForPassthrough(target, f) || RollsBack(target, f) ==> !dlssEnabled && !TearsDownDirty(target, f)
      ensures !StaysForPassthrough(target, f) && !RollsBack(target, f) ==>
                (TearsDownDirty(target, f) <==>
                  Departs(target, f) && target == Dlss && CanPrepare(f) && swapCtx
                    && log.verdict.world.residue == Dirty)
    {
      hide Judge, CanPrepare;
    }

    lemma ReplacedIsKept()
      requires Replaced() && switchPending && !togglePending
      ensures Inv() && chain
    {
      hide FsrHandles, SlHandles, Rules;
    }

    /** The entry and, unless a replacement is staged, the end of the switch. */
    method FinishSwitch(target: Mode, ok0: bool, f: Frame) returns (ok: bool)
      requires ReadyToEnter(target, ok0) && switchPending && !togglePending
      modifies `fsrLoaded, `slInitialized, `slFactoryExport, `slDeviceSet, `slBoundDevice, `slSetOptions, `slGetState,
               `slReflex, `dlssInitialized, `dlssEnabled, `dlssSuspended, `reflexLow, `running, `switchPending,
               `fsrInitialized, `fsrEnabled, `fsrSuspended, `fgCtx, `swapCtx, `stage, `retirePending, `device,
               `chain, `owner, `usesSl, `mode, `log
      ensures Inv() && running == (old(running) && chain)
      ensures ok == (ok0 && old(CanEnter(target, f)))
      ensures if ok && target == Dlss && old(FromFsr() || !usesSl)
              then switchPending && Replaced()
              else !switchPending && mode == (if ok then target else Off) && Outcome(target, ok)
      ensures old(slInitialized) ==> slInitialized && slFactoryExport == old(slFactoryExport)
      ensures IsReplacementStage(stage) ==> switchPending && slFactoryExport == old(Exported(f))
      ensures !ok0 ==>
                chain && stage == old(stage) && swapCtx == old(swapCtx) && fgCtx == old(fgCtx)
                && usesSl == old(usesSl)
                && log.verdict.world == old(log).verdict.world.(fsrMode := false, stray := false)
      ensures ok && target == Fsr ==>
                swapCtx == (old(swapCtx) || f.ask(FfxChain))
                && (swapCtx ==> log.verdict.world.residue == Dirty && log.verdict.world.fsr == Running)
      ensures log.verdict.covered == old(log).verdict.covered
      ensures log.verdict.quiet == if ok0 && target == Dlss && old(CanPrepare(f) && swapCtx)
                                      && old(log).verdict.world.residue == Dirty
                                   then Broken else old(log).verdict.quiet
      ensures log.verdict.world.dlss == if dlssEnabled then Running else old(log).verdict.world.dlss
      ensures old(SameVendor(f)) ==> SameVendor(f)
      ensures target != Dlss ==> slInitialized == old(slInitialized)
      ensures target == Dlss && !old(CanPrepare(f)) ==> swapCtx == old(swapCtx) && fgCtx == old(fgCtx)
    {
      hide Judge, JudgeStep, Append, CanPrepare, CanEnter, SameVendor, Exported, Core, Outcome, Inv, Replaced,
           ReadyToEnter, FromFsr;
      var done;
      done, ok := EnterTarget(target, ok0, f);
      if done {
        ReplacedIsKept();
        return;
      }
      Settle(target, ok);
    }

    /** A switch request with no replacement under way. */
    method FollowRequest(target: Mode, f: Frame) returns (ok: bool)
      requires Steady() && chain && switchPending && !IsReplacementStage(stage)
      modifies `fsrLoaded, `slInitialized, `slFactoryExport, `slDeviceSet, `slBoundDevice, `slSetOptions, `slGetState,
               `slReflex, `dlssInitialized, `dlssEnabled, `dlssSuspended, `reflexLow, `running, `switchPending,
               `fsrInitialized, `fsrEnabled, `fsrSuspended, `fgCtx, `swapCtx, `stage, `retirePending, `device,
               `chain, `owner, `usesSl, `mode, `log
      ensures Inv() && running == (old(running) && chain)
      ensures old(StaysForPassthrough(target, f)) ==>
                && ok && chain && switchPending && mode == Fsr && stage == PresentPending && !fsrEnabled
                && CanReachDlss() == old(CanReachDlss())
      ensures old(RollsBack(target, f)) ==>
                !ok && chain && !switchPending && mode == old(mode) && stage == NoStage
                  && fsrEnabled == f.ask(FsrRollback)
      ensures old(GoesOn(target, f)) ==>
                && ok == old(Departs(target, f) && CanEnter(target, f))
                && if ok && target == Dlss && old(FromFsr() || !usesSl)
                   then switchPending && Replaced()
                   else !switchPending && mode == (if ok then target else Off) && Outcome(target, ok)
      ensures old(slInitialized) ==> slInitialized && slFactoryExport == old(slFactoryExport)
      ensures IsReplacementStage(stage) ==> slFactoryExport == old(Exported(f))
      ensures old(GoesOn(target, f) && !Departs(target, f)) ==>
                && chain && stage == (if target == Fsr then NoStage else old(stage))
                && swapCtx == old(swapCtx) && fgCtx == old(fgCtx) && usesSl == old(usesSl)
                && log.verdict.world.residue == old(log).verdict.world.residue
      ensures ok && target == Fsr ==>
                swapCtx == (old(swapCtx) || f.ask(FfxChain))
                && (swapCtx ==> log.verdict.world.residue == Dirty && log.verdict.world.fsr == Running)
      ensures log.verdict.covered == old(log).verdict.covered
      ensures log.verdict.quiet == if old(TearsDownDirty(target, f)) then Broken else old(log).verdict.quiet
      ensures log.verdict.world.dlss == if dlssEnabled then Running
                                        else if old(dlssEnabled) then AfterDisable(old(log).verdict.world.dlss, f)
                                        else old(log).verdict.world.dlss
      ensures old(SameVendor(f)) ==> SameVendor(f)
      ensures target != Dlss ==> slInitialized == old(slInitialized)
      ensures !f.ask(FsrLeave) && old(stage == NoStage && !dlssEnabled && !Departs(target, f)) ==>
                (old(log).verdict.world.fsr != Stopped ==> log.verdict.world.fsr != Stopped)
      ensures target == Dlss && !old(CanPrepare(f)) ==> swapCtx == old(swapCtx) && fgCtx == old(fgCtx)
    {
      hide Judge, JudgeStep, Append, CanPrepare, CanEnter, Exported, SameVendor, CanReachDlss, Outcome, Replaced, Core,
           Inv, Steady, Fallback, FromFsr, TearsDownDirty, Departs, RollsBack, StaysForPassthrough, GoesOn;
      DirtyTearDown(target, f);
      var done;
      done, ok := Depart(target, f);
      if done {
        return ok;
      }
      ok := FinishSwitch(target, ok, f);
    }

    /** A replacement starts from nothing that could be left dirty. */
    lemma ReplacementIsBare()
      requires Inv()
      ensures Steady()
      ensures IsReplacementStage(stage) ==>
                switchPending && mode == Off && !fsrEnabled && !dlssEnabled && log.verdict.world.residue == Clean
    {
      hide SlHandles, Rules;
    }

    /**
     One switch request. Apart from the two stages in which it only waits for an image and the rollback, it
     ends in the target mode or in OFF, or on a fresh replacement swapchain.
     */
    method SwitchMode(target: Mode, f: Frame) returns (ok: bool)
      requires Inv() && chain && (switchPending || target == mode)
      modifies `fsrLoaded, `slInitialized, `slFactoryExport, `slDeviceSet, `slBoundDevice, `slSetOptions, `slGetState,
               `slReflex, `dlssInitialized, `dlssEnabled, `dlssSuspended, `reflexLow, `running, `switchPending,
               `fsrInitialized, `fsrEnabled, `fsrSuspended, `fgCtx, `swapCtx, `stage, `retirePending, `device,
               `chain, `owner, `usesSl, `mode, `log
      ensures Inv()
      // where it ends
      ensures running == (old(running) && chain)
      ensures old(target == mode && !switchPending) ==> ok && mode == target && log == old(log)
      ensures old(switchPending && AwaitsReplacement()) ==>
                ok && switchPending && mode == Off && stage == ReplacementPresentPending && log == old(log)
      ensures old(switchPending && !AwaitsReplacement() && StaysForPassthrough(target, f)) ==>
                && ok && chain && switchPending && mode == Fsr && stage == PresentPending && !fsrEnabled
                && CanReachDlss() == old(CanReachDlss())
      ensures old(switchPending && RollsBack(target, f)) ==>
                !ok && chain && !switchPending && mode == old(mode) && stage == NoStage
                  && fsrEnabled == f.ask(FsrRollback)
      ensures old(switchPending && GoesOn(target, f)) ==>
                && ok == old(Departs(target, f) && CanEnter(target, f))
                && if ok && target == Dlss && old(FromFsr() || !usesSl)
                   then switchPending && Replaced()
                   else !switchPending && mode == (if ok then target else Off) && Outcome(target, ok)
      ensures old(slInitialized) ==> slInitialized && slFactoryExport == old(slFactoryExport)
      ensures IsReplacementStage(stage) && !old(AwaitsReplacement()) ==> slFactoryExport == old(Exported(f))
      ensures old(switchPending && GoesOn(target, f) && !Departs(target, f)) ==>
                && chain && stage == (if target == Fsr || IsReplacementStage(old(stage)) then NoStage else old(stage))
                && swapCtx == old(swapCtx) && fgCtx == old(fgCtx) && usesSl == old(usesSl)
                && log.verdict.world.residue == old(log).verdict.world.residue
      ensures old(switchPending && !AwaitsReplacement()) && ok && target == Fsr ==>
                swapCtx == (old(swapCtx) || f.ask(FfxChain))
                && (swapCtx ==> log.verdict.world.residue == Dirty && log.verdict.world.fsr == Running)
      // what the judge is told
      ensures old(switchPending) ==>
                log.verdict.world.dlss == if dlssEnabled then Running
                                          else if old(dlssEnabled) then AfterDisable(old(log).verdict.world.dlss, f)
                                          else old(log).verdict.world.dlss
      ensures log.verdict.covered == old(log).verdict.covered
      ensures log.verdict.quiet == if old(switchPending && TearsDownDirty(target, f)) then Broken
                                   else old(log).verdict.quiet
      // coherence is lost in exactly one way
      ensures old(FsrCoherent()) ==>
                (FsrCoherent() <==> !(old(switchPending && mode != Fsr && RollsBack(target, f)) && f.ask(FsrRollback)))
      ensures old(SameVendor(f)) ==> SameVendor(f)
      ensures target != Dlss ==> slInitialized == old(slInitialized)
      ensures !f.ask(FsrLeave) && old(switchPending && stage == NoStage && !dlssEnabled && !Departs(target, f)) ==>
                (old(log).verdict.world.fsr != Stopped ==> log.verdict.world.fsr != Stopped)
      ensures target == Dlss && !old(CanPrepare(f)) ==> swapCtx == old(swapCtx) && fgCtx == old(fgCtx)
    {
      hide Judge, JudgeStep, Append, CanPrepare, CanEnter, Core, Steady, Inv, Exported, CanReachDlss, SameVendor,
           FromFsr, StillRetires, StaysForPassthrough, RollsBack, Departs, TearsDownDirty;
      ReplacementIsBare();
      if target == mode && !switchPending {
        return true;
      }
      var waiting := ResumeReplacement(target);
      if waiting {
        return true;
      }
      ok := FollowRequest(target, f);
    }

    // -------------------------------------------------------------------------------------------
    // Requests
    // -------------------------------------------------------------------------------------------

    /** A mode request supersedes a pending toggle and an earlier mode request. */
    method RequestMode(target: Mode, byHand: bool)
      requires Inv()
      modifies `pendingMode, `switchPending, `togglePending, `manual
      ensures Inv() && pendingMode == target && switchPending && !togglePending
      ensures manual == (old(manual) || byHand)
    {
      hide Judge, Core, DlssCoherent, FsrCoherent, StagedFsrExit, ProxyHasPurpose;
      pendingMode, switchPending, togglePending := target, true, false;
      if byHand {
        manual := true;
      }
    }

    method RequestToggle(target: Mode)
      requires Inv() && !switchPending
      modifies `toggleMode, `togglePending, `manual
      ensures Inv() && toggleMode == target && togglePending && manual
    {
      hide Judge, Core;
      toggleMode, togglePending, manual := target, true, true;
    }

    method RequestModeOrToggle(target: Mode)
      requires Inv()
      modifies `pendingMode, `switchPending, `toggleMode, `togglePending, `manual
      ensures Inv() && manual && (switchPending || togglePending)
      ensures var toggles := target != Off && old(mode == target && !switchPending);
              && togglePending == toggles && (toggles ==> toggleMode == target)
              && (!toggles ==> switchPending && pendingMode == target)
    {
      hide Judge, Core;
      if target != Off && mode == target && !switchPending {
        RequestToggle(target);
      } else {
        RequestMode(target, true);
      }
    }

    predicate AutoFires(due: bool)
      reads `manual, `autoStage
    {
      !manual && due && autoStage < 3
    }

    function NextAuto(): Mode
      reads `autoStage
    {
      if autoStage == 1 then Dlss else Fsr
    }

    /** FSR, then DLSS, then FSR again, each once its time has come, until a key takes over. */
    method RunAutoSequence(due: bool)
      requires Inv()
      modifies `autoStage, `pendingMode, `switchPending, `togglePending, `manual
      ensures Inv() && manual == old(manual)
      ensures var fires := old(AutoFires(due));
              && autoStage == old(autoStage) + (if fires then 1 else 0)
              && (fires ==> switchPending && !togglePending && pendingMode == old(NextAuto()))
              && (!fires ==> switchPending == old(switchPending) && togglePending == old(togglePending)
                             && pendingMode == old(pendingMode))
    {
      hide Judge, Core;
      if manual {
        return;
      }
      if autoStage == 0 && due {
        autoStage := 1;
        RequestMode(Fsr, false);
      } else if autoStage == 1 && due {
        autoStage := 2;
        RequestMode(Dlss, false);
      } else if autoStage == 2 && due {
        autoStage := 3;
        RequestMode(Fsr, false);
      }
    }

    // -------------------------------------------------------------------------------------------
    // Suspension
    // -------------------------------------------------------------------------------------------

    /** Resumes or suspends FSR; suspending leaves it enabled. */
    method SetFsr(resume: bool, ok: bool)
      requires Core() && fgCtx && !StagedFsrExit(stage) && !IsReplacementStage(stage)
      modifies `fsrEnabled, `fsrSuspended, `log
      ensures Core()
      ensures fsrEnabled == (ok || old(fsrEnabled)) && fsrSuspended == (if ok then !resume else old(fsrSuspended))
      ensures log == Append(old(log), FsrConfigured(resume, ok))
      ensures var v := old(log).verdict;
              log.verdict == FsrVerdict(v, resume, ok)
    {
      hide Judge, JudgeStep, Append, SlHandles, FsrVerdict, RulesOf;
      FsrAnswerMeans(log.verdict, resume, ok);
      var accepted := ConfigureFsr(resume, ok);
      if !accepted {
        return;
      }
      fsrEnabled, fsrSuspended := true, !resume;
    }

    method ToggleFsr(f: Frame)
      requires Inv() && mode == Fsr && !switchPending
      modifies `fsrEnabled, `fsrSuspended, `log
      ensures Inv()
      ensures var resume, ok := old(fsrSuspended || !fsrEnabled), f.ask(FsrToggle);
              && fsrEnabled == (ok || old(fsrEnabled))
              && fsrSuspended == (if ok then !resume else old(fsrSuspended))
              && log == Append(old(log), FsrConfigured(resume, ok))
      ensures log.verdict.covered == old(log).verdict.covered
    {
      hide Judge, JudgeStep, Append, SlHandles, Rules;
      if !fgCtx || !fsrInitialized {
        assert false;  // FSR mode always has its context
      }
      var resume := fsrSuspended || !fsrEnabled;
      SetFsr(resume, f.ask(FsrToggle));
    }

    /** Resumes or suspends DLSS-G on its live, already shown swapchain. */
    method SetSuspension(resume: bool, ok: bool, reflexOk: bool)
      requires Core() && usesSl && stage == NoStage
      modifies `dlssEnabled, `dlssSuspended, `reflexLow, `log
      ensures Core()
      ensures dlssEnabled == (if ok then resume else old(dlssEnabled))
      ensures dlssSuspended == (if ok then !resume else old(dlssSuspended))
      ensures log.calls == old(log).calls + [DlssGSet(resume, ok)] +
                           (if ok && resume && slReflex && !old(reflexLow) then [ReflexSet(true, reflexOk)] else [])
      ensures log.verdict == DlssSet(old(log).verdict, resume, ok)
    {
      hide Judge, JudgeStep, Append, AgreesWith, FsrHandles, RulesOf, DlssAnswer, SlHandles, ChainKindNow;
      ghost var v := log.verdict;
      ShownStreamline();
      DlssVerdict(v, resume, ok);
      SameAgreement(v.world, DlssSet(v, resume, ok).world);
      var accepted := SetDlssMode(resume, ok, reflexOk);
      if accepted {
        dlssEnabled, dlssSuspended := resume, !resume;
      }
      RulesOutlastDlss(v, resume, ok, old(dlssEnabled), dlssEnabled);
    }

    method ToggleDlss(f: Frame)
      requires Inv() && mode == Dlss
      modifies `dlssEnabled, `dlssSuspended, `reflexLow, `log
      ensures Inv()
      ensures var resume, ok := old(dlssSuspended || !dlssEnabled), f.ask(DlssToggle);
              && dlssEnabled == (if ok then resume else old(dlssEnabled))
              && dlssSuspended == (if ok then !resume else old(dlssSuspended))
              && log.calls == old(log).calls + [DlssGSet(resume, ok)] +
                              (if ok && resume && slReflex && !old(reflexLow)
                                then [ReflexSet(true, f.ask(ReflexToggle))] else [])
      ensures log.verdict.covered == old(log).verdict.covered
    {
      hide Judge, JudgeStep, Rules, Agrees;
      if !dlssInitialized || !slSetOptions {
        assert false;  // DLSS mode always has its options call
      }
      var resume := dlssSuspended || !dlssEnabled;
      SetSuspension(resume, f.ask(DlssToggle), f.ask(ReflexToggle));
    }

    function FlagsNow(): Flags
      reads `fsrEnabled, `fsrSuspended, `dlssEnabled, `dlssSuspended
    {
      Flags(fsrEnabled, fsrSuspended, dlssEnabled, dlssSuspended)
    }

    /** What the vendor is asked for a toggle: what is suspended or off is resumed, anything else suspended. */
    function ToggleCalls(target: Mode, f: Frame): seq<Event>
      reads `mode, `fsrEnabled, `fsrSuspended, `dlssEnabled, `dlssSuspended, `slReflex, `reflexLow
    {
      if target != mode || mode == Off then []
      else if mode == Fsr then [FsrConfigured(fsrSuspended || !fsrEnabled, f.ask(FsrToggle))]
      else
        var resume := dlssSuspended || !dlssEnabled;
        [DlssGSet(resume, f.ask(DlssToggle))] +
        if resume && f.ask(DlssToggle) && slReflex && !reflexLow then [ReflexSet(true, f.ask(ReflexToggle))] else []
    }

    /** The flags an accepted toggle leaves; a refused one changes nothing. A suspended FSR stays enabled. */
    function Toggled(target: Mode, f: Frame): Flags
      reads `mode, `fsrEnabled, `fsrSuspended, `dlssEnabled, `dlssSuspended
    {
      if target == mode == Fsr && f.ask(FsrToggle) then
        FlagsNow().(fsr := true, fsrSuspended := fsrEnabled && !fsrSuspended)
      else if target == mode == Dlss && f.ask(DlssToggle) then
        FlagsNow().(dlss := dlssSuspended || !dlssEnabled, dlssSuspended := dlssEnabled && !dlssSuspended)
      else FlagsNow()
    }

    /** A toggle meant for a mode that is no longer current is dropped. */
    method ToggleSuspension(target: Mode, f: Frame)
      requires Inv() && togglePending
      modifies `togglePending, `fsrEnabled, `fsrSuspended, `dlssEnabled, `dlssSuspended, `reflexLow, `log
      ensures Inv() && !togglePending
      ensures FlagsNow() == old(Toggled(target, f)) && log.calls == old(log.calls + ToggleCalls(target, f))
      ensures target != mode || mode == Off ==> log == old(log)
      ensures old(FsrCoherent()) ==> FsrCoherent()
      ensures log.verdict.covered == old(log).verdict.covered
    {
      hide Judge, Core;
      togglePending := false;
      if target == mode {
        match mode {
          case Off =>
          case Fsr => ToggleFsr(f);
          case Dlss => ToggleDlss(f);
        }
      }
    }

    /** An enabled FSR is told again whether it is suspended. */
    method ResendFsr(ok: bool)
      requires Inv() && fsrEnabled
      modifies `log
      ensures Inv() && log == Append(old(log), FsrConfigured(!fsrSuspended, ok))
      ensures log.verdict.covered == old(log).verdict.covered
      ensures log.verdict.world.dlss == old(log).verdict.world.dlss
    {
      hide Judge, JudgeStep, Append, SlHandles, FsrAnswer, RulesOf;
      FsrAnswerMeans(log.verdict, !fsrSuspended, ok);
      var _ := ConfigureFsr(!fsrSuspended, ok);
    }

    method FlipSuspended()
      requires Inv() && fsrEnabled
      modifies `fsrSuspended
      ensures Inv() && fsrSuspended != old(fsrSuspended)
    {
      hide Judge, FsrHandles, SlHandles, Rules;
      fsrSuspended := !fsrSuspended;
    }

    method FsrSuspensionStress(f: Frame)
      requires Inv()
      modifies `fsrSuspended, `log
      ensures Inv()
      ensures var fires := old(FsrStressFires(f));
              && fsrSuspended == (old(fsrSuspended) != fires)
              && log == if fires then Append(old(log), FsrConfigured(old(fsrSuspended), f.ask(FsrStress))) else old(log)
      ensures log.verdict.covered == old(log).verdict.covered
      ensures log.verdict.world.dlss == old(log).verdict.world.dlss
    {
      hide Judge, JudgeStep, Append, Inv;
      if !cfg.fsrStress || manual || mode != Fsr || !fsrEnabled || !fgCtx || !f.ask(FsrStressDue) {
        return;
      }
      FlipSuspended();
      ResendFsr(f.ask(FsrStress));
    }

    method HoldSuspended(f: Frame)
      requires Inv() && mode == Dlss
      modifies `dlssEnabled, `dlssSuspended, `stressDidSuspend, `reflexLow, `log
      ensures Inv()
      ensures var ok := f.ask(DlssStress);
              && dlssEnabled == (!ok && old(dlssEnabled)) && dlssSuspended == (ok || old(dlssSuspended))
              && stressDidSuspend == (ok || old(stressDidSuspend))
              && log.calls == old(log).calls + [DlssGSet(false, ok)]
      ensures log.verdict.covered == old(log).verdict.covered
    {
      hide Judge, JudgeStep, Append, Rules, Agrees;
      SetSuspension(false, f.ask(DlssStress), false);
      stressDidSuspend := stressDidSuspend || f.ask(DlssStress);
    }

    lemma DlssModeIsReady()
      requires Inv() && mode == Dlss
      ensures dlssInitialized && slSetOptions
    {
    }

    predicate FsrStressFires(f: Frame)
      reads `manual, `mode, `fsrEnabled, `fgCtx
    {
      cfg.fsrStress && !manual && mode == Fsr && fsrEnabled && fgCtx && f.ask(FsrStressDue)
    }

    /** The stress clocks run in DLSS mode until a key takes over or another mode is asked for. */
    predicate DlssStressFires(f: Frame)
      reads `manual, `switchPending, `mode
    {
      !manual && !switchPending && mode == Dlss && f.ask(DlssStressDue)
    }

    predicate DlssSuspends(f: Frame)
      reads `manual, `switchPending, `mode, `stressDidSuspend
    {
      DlssStressFires(f) && cfg.dlssSuspendStress && !stressDidSuspend
    }

    predicate DlssAsksOff(f: Frame)
      reads `manual, `switchPending, `mode, `stressDidSuspend, `stressDidOff
    {
      DlssStressFires(f) && !(cfg.dlssSuspendStress && !stressDidSuspend) && cfg.dlssOffStress && !stressDidOff
    }

    /** What the stress clocks ask the vendors, and the flags they leave. */
    function StressCalls(f: Frame): seq<Event>
      reads `manual, `mode, `fsrEnabled, `fgCtx, `fsrSuspended, `switchPending, `stressDidSuspend
    {
      if FsrStressFires(f) then [FsrConfigured(fsrSuspended, f.ask(FsrStress))]
      else if DlssSuspends(f) then [DlssGSet(false, f.ask(DlssStress))]
      else []
    }

    function RequestsNow(): Requests
      reads `switchPending, `pendingMode, `togglePending, `stressDidSuspend, `stressDidOff
    {
      Requests(switchPending, pendingMode, togglePending, stressDidSuspend, stressDidOff)
    }

    function StressedRequests(f: Frame): Requests
      reads `manual, `mode, `switchPending, `pendingMode, `togglePending, `stressDidSuspend, `stressDidOff
    {
      if DlssAsksOff(f) then RequestsNow().(switch := true, target := Off, toggle := false, didOff := true)
      else RequestsNow().(didSuspend := stressDidSuspend || (DlssSuspends(f) && f.ask(DlssStress)))
    }

    function Stressed(f: Frame): Flags
      reads `manual, `mode, `fsrEnabled, `fgCtx, `fsrSuspended, `switchPending, `stressDidSuspend,
            `dlssEnabled, `dlssSuspended
    {
      if FsrStressFires(f) then FlagsNow().(fsrSuspended := !fsrSuspended)
      else if DlssSuspends(f) && f.ask(DlssStress) then FlagsNow().(dlss := false, dlssSuspended := true)
      else FlagsNow()
    }

    /** Suspends DLSS-G once and holds it, then asks for OFF once; each part as configured. */
    method DlssSuspensionStress(f: Frame)
      requires Inv()
      modifies `dlssEnabled, `dlssSuspended, `stressDidSuspend, `stressDidOff, `reflexLow, `log,
               `pendingMode, `switchPending, `togglePending, `manual
      ensures Inv() && manual == old(manual)
      ensures RequestsNow() == old(StressedRequests(f))
      ensures var suspends, ok := old(DlssSuspends(f)), f.ask(DlssStress);
              && dlssEnabled == (old(dlssEnabled) && !(suspends && ok))
              && dlssSuspended == (old(dlssSuspended) || (suspends && ok))
              && log.calls == old(log).calls + (if suspends then [DlssGSet(false, ok)] else [])
              && (!suspends ==> log == old(log))
      ensures log.verdict.covered == old(log).verdict.covered
    {
      hide Judge, Core;
      if mode == Dlss {
        DlssModeIsReady();
      }
      if (!cfg.dlssSuspendStress && !cfg.dlssOffStress) || manual || switchPending || mode != Dlss
         || !dlssInitialized || !slSetOptions {
        return;
      }
      var suspendPending := cfg.dlssSuspendStress && !stressDidSuspend;
      var offPending := cfg.dlssOffStress && !stressDidOff && !suspendPending;
      if (!suspendPending && !offPending) || !f.ask(DlssStressDue) {
        return;
      }
      if offPending {
        stressDidOff := true;
        RequestMode(Off, false);
      } else {
        HoldSuspended(f);
      }
    }

    // -------------------------------------------------------------------------------------------
    // One frame
    // -------------------------------------------------------------------------------------------

    function SyncInterval(): nat
      reads `mode, `stage
    {
      ResolvePresentPolicy(mode == Dlss || IsReplacementStage(stage), cfg.vsync, false).syncInterval
    }

    /** DLSS mode and a staged replacement present uncapped, anything else at the configured interval. */
    lemma SyncMeans()
      ensures mode == Dlss || stage in {ReplacementPresentPending, ReplacementPresented} ==> SyncInterval() == 0
      ensures mode != Dlss && stage in {NoStage, PresentPending, PassthroughPresented} ==>
                0 <= cfg.vsync < 0x1_0000_0000 ==> SyncInterval() == cfg.vsync
    {
    }

    lemma ReplacingIsOff()
      requires Inv()
      ensures (IsReplacementStage(stage) ==> mode == Off) && (running ==> chain) && !(switchPending && togglePending)
      ensures togglePending ==> manual
    {
      hide Core;
    }

    /** The first image of a replacement swapchain comes while a refused DLSS-G Off still tells. */
    ghost predicate Uncovers(shown: bool)
      reads `usesSl, `stage, `log
    {
      shown && usesSl && stage == ReplacementPresentPending && log.verdict.world.dlss == Stuck
    }

    /** What the judge makes of the next Present. */
    lemma PresentIsJudged(sync: nat, presented: bool)
      requires Inv() && chain && sync == SyncInterval()
      ensures var v, u := log.verdict, JudgeStep(log.verdict, Presented(presented, sync));
              && u.world == AfterPresent(v.world, presented) && RulesOf(u, dlssEnabled)
              && u.covered == (if Uncovers(presented) then Broken else v.covered)
              && u.switches == v.switches
    {
      hide Judge, JudgeStep, FsrHandles, SlHandles;
      PresentVerdict(log.verdict, presented, sync);
    }

    method AdvanceStage(sync: nat, presented: bool)
      requires Inv() && chain && sync == SyncInterval()
      modifies `stage, `log
      ensures Inv() && stage == StageAfterPresent(old(stage), presented)
      ensures log == Append(old(log), Presented(presented, sync))
      ensures log.verdict.covered == if old(Uncovers(presented)) then Broken else old(log).verdict.covered
      ensures log.verdict.world.dlss == old(log).verdict.world.dlss
    {
      hide Judge, JudgeStep, FsrHandles, SlHandles, RulesOf, SyncInterval;
      PresentIsJudged(sync, presented);
      log := Append(log, Presented(presented, sync));
      stage := StageAfterPresent(stage, presented);
    }

    /** The FSR runtime goes once a DLSS image is on screen. */
    method RetireBehindDlss()
      requires Inv()
      modifies `fsrLoaded, `fsrInitialized, `retirePending
      ensures Inv() && !retirePending && fsrLoaded == (old(fsrLoaded) && !(old(retirePending) && Unloads()))
    {
      hide Judge, Rules, Agrees, SlHandles;
      RetireFsrRuntime();
    }

    method StopRunning()
      requires Inv()
      modifies `running
      ensures Inv() && !running
    {
      hide Judge, Core;
      running := false;
    }

    /** Shows one image and lets the stage follow it; the FSR runtime is retired behind an active DLSS image. */
    method PresentFrame(sync: nat, f: Frame)
      requires Inv() && chain && sync == SyncInterval()
      modifies `stage, `fsrLoaded, `fsrInitialized, `retirePending, `running, `log
      ensures Inv() && stage == StageAfterPresent(old(stage), f.ask(PresentOk))
      ensures log == Append(old(log), Presented(f.ask(PresentOk), sync))
      ensures running == (old(running) && (f.ask(PresentOk) || !f.ask(DeviceRemoved)))
      ensures var retires := f.ask(PresentOk) && mode == Dlss && dlssEnabled;
              && retirePending == (old(retirePending) && !retires)
              && fsrLoaded == (old(fsrLoaded) && !(retires && old(retirePending) && Unloads()))
      ensures log.verdict.covered == if old(Uncovers(f.ask(PresentOk))) then Broken else old(log).verdict.covered
      ensures log.verdict.world.dlss == old(log).verdict.world.dlss
    {
      hide Judge, JudgeStep, Append, Inv, SyncInterval, StageAfterPresent, Uncovers;
      AdvanceStage(sync, f.ask(PresentOk));
      if f.ask(PresentOk) && mode == Dlss && dlssEnabled {
        RetireBehindDlss();
      }
      if !f.ask(PresentOk) && f.ask(DeviceRemoved) {
        StopRunning();
      }
    }

    method RefreshFsr(f: Frame)
      requires Inv()
      modifies `log
      ensures Inv()
      ensures log == if fsrEnabled && cfg.fsrConfigureEveryFrame
                     then Append(old(log), FsrConfigured(!fsrSuspended, f.ask(FsrRefresh))) else old(log)
      ensures log.verdict.covered == old(log).verdict.covered
      ensures log.verdict.world.dlss == old(log).verdict.world.dlss
    {
      hide Judge, JudgeStep, Append, Inv;
      if fsrEnabled && cfg.fsrConfigureEveryFrame {
        ResendFsr(f.ask(FsrRefresh));
      }
    }

    /** A request that is already pending outlives the stress clocks, and they never touch the stage. */
    method StressClocks(f: Frame)
      requires Inv()
      modifies `log, `fsrSuspended, `dlssEnabled, `dlssSuspended, `stressDidSuspend, `stressDidOff, `reflexLow,
               `pendingMode, `switchPending, `togglePending, `manual
      ensures Inv()
      ensures manual == old(manual) && FlagsNow() == old(Stressed(f)) && log.calls == old(log.calls + StressCalls(f))
      ensures RequestsNow() == old(StressedRequests(f))
      ensures old(StressCalls(f)) == [] ==> log == old(log)
      ensures log.verdict.covered == old(log).verdict.covered
      ensures mode == Off ==> log.verdict.world.dlss == old(log).verdict.world.dlss
    {
      hide Judge, JudgeStep, Append, Inv;
      FsrSuspensionStress(f);
      DlssSuspensionStress(f);
    }

    /** The latest call is a Present with this outcome and this sync interval. */
    ghost predicate Shows(ok: bool, sync: nat)
      reads `log
    {
      log.calls != [] && log.calls[|log.calls| - 1] == Presented(ok, sync)
    }

    lemma ImageKeepsSync(shown: bool, before: Stage)
      requires stage == StageAfterPresent(before, shown)
      ensures IsReplacementStage(stage) <==> IsReplacementStage(before)
    {
    }

    lemma SyncStays(f: Frame, before: Stage)
      requires stage == StageAfterPresent(before, f.ask(PresentOk))
      ensures SyncInterval()
              == ResolvePresentPolicy(mode == Dlss || IsReplacementStage(before), cfg.vsync, false).syncInterval
    {
    }

    /** How a frame ends: the configured refresh of FSR and the Present. */
    function ShowCalls(f: Frame): seq<Event>
      reads `fsrEnabled, `fsrSuspended, `mode, `stage
    {
      (if fsrEnabled && cfg.fsrConfigureEveryFrame then [FsrConfigured(!fsrSuspended, f.ask(FsrRefresh))] else [])
      + [Presented(f.ask(PresentOk), SyncInterval())]
    }

    /** The configured refresh of FSR and the Present. */
    method ShowFrame(f: Frame)
      requires Inv() && chain
      modifies `stage, `fsrLoaded, `fsrInitialized, `retirePending, `running, `log
      ensures Inv() && stage == StageAfterPresent(old(stage), f.ask(PresentOk))
      ensures running == (old(running) && (f.ask(PresentOk) || !f.ask(DeviceRemoved)))
      ensures log.calls == old(log.calls + ShowCalls(f)) && ShowCalls(f) == old(ShowCalls(f))
      ensures !(fsrEnabled && cfg.fsrConfigureEveryFrame) ==>
                log == Append(old(log), Presented(f.ask(PresentOk), old(SyncInterval())))
      ensures var retires := f.ask(PresentOk) && mode == Dlss && dlssEnabled;
              && retirePending == (old(retirePending) && !retires)
              && fsrLoaded == (old(fsrLoaded) && !(retires && old(retirePending) && Unloads()))
      ensures log.verdict.covered == if old(Uncovers(f.ask(PresentOk))) then Broken else old(log).verdict.covered
      ensures log.verdict.world.dlss == old(log).verdict.world.dlss
    {
      hide Judge, JudgeStep, Append, Inv, StageAfterPresent;
      var sync := SyncInterval();
      RefreshFsr(f);
      PresentFrame(sync, f);
      ImageKeepsSync(f.ask(PresentOk), old(stage));
    }

    method DrawFrame(f: Frame)
      requires Inv() && chain
      modifies `stage, `fsrLoaded, `fsrInitialized, `retirePending, `running, `log, `fsrSuspended,
               `dlssEnabled, `dlssSuspended, `stressDidSuspend, `stressDidOff, `reflexLow,
               `pendingMode, `switchPending, `togglePending, `manual
      ensures Inv() && stage == StageAfterPresent(old(stage), f.ask(PresentOk))
      ensures manual == old(manual) && FlagsNow() == old(Stressed(f))
      ensures log.calls == old(log.calls + StressCalls(f)) + ShowCalls(f)
      ensures RequestsNow() == old(StressedRequests(f))
      ensures running == (old(running) && (f.ask(PresentOk) || !f.ask(DeviceRemoved)))
      ensures old(FsrCoherent()) ==> FsrCoherent()
      ensures log.verdict.covered == if old(Uncovers(f.ask(PresentOk))) then Broken else old(log).verdict.covered
      ensures mode == Off ==> log.verdict.world.dlss == old(log).verdict.world.dlss
    {
      hide Judge, JudgeStep, Append, Inv, SyncInterval, StageAfterPresent, FsrCoherent, Shows, StressCalls, Stressed,
           StressedRequests, ShowCalls, Unloads, FlagsNow, RequestsNow;
      ReplacingIsOff();
      StressClocks(f);
      ShowFrame(f);
    }

    /** How many granted frames a request for `target` still needs, were the transition at stage `at`. */
    function RankAt(at: Stage, enabled: bool, target: Mode): (n: nat)
      reads `usesSl, `mode, `swapCtx, `owner, `fgCtx
      ensures 1 <= n <= 3
    {
      if at == ReplacementPresentPending && usesSl then 2
      else if mode == Fsr && target != Fsr && (at == PresentPending || (enabled && swapCtx)) then
        if target == Dlss then 3 else 2
      else if target == Dlss && (FromFsr() || !usesSl) then 2
      else 1
    }

    predicate Settled(target: Mode)
      reads `mode, `stage, `switchPending, `togglePending, `fsrEnabled, `dlssEnabled, `dlssSuspended
    {
      && mode == target && stage == NoStage && !switchPending && !togglePending
      && fsrEnabled == (target == Fsr) && dlssEnabled == (target == Dlss) && !dlssSuspended
    }

    /** The request can be met: only DLSS needs something no later call can repair. */
    predicate Attainable(target: Mode)
      reads `slInitialized, `slFactoryExport, `slDeviceSet, `slBoundDevice, `device
    {
      target == Dlss ==> CanReachDlss()
    }

    lemma GrantedEnters(target: Mode, f: Frame)
      requires Granted(f) && Attainable(target) && device != 0
      ensures Departs(target, f) && CanEnter(target, f) && !RollsBack(target, f)
      ensures target == Dlss ==> Exported(f) && CanPrepare(f)
    {
    }

    lemma VendorAttains(target: Mode, f: Frame)
      requires SameVendor(f) && f.ask(SlFactoryExport)
      ensures Attainable(target)
    {
    }

    /** A shown replacement is either a Streamline swapchain, or all that can be had without the factory. */
    lemma ShownReplacement()
      requires Inv()
      ensures stage == ReplacementPresented ==> if usesSl then !FromFsr() else slInitialized && !slFactoryExport
    {
    }

    /** With everything granted a switch either settles or comes one image closer to it. */
    method SwitchWhenGranted(target: Mode, f: Frame)
      requires Inv() && chain && switchPending
      modifies `fsrLoaded, `slInitialized, `slFactoryExport, `slDeviceSet, `slBoundDevice, `slSetOptions, `slGetState,
               `slReflex, `dlssInitialized, `dlssEnabled, `dlssSuspended, `reflexLow, `running, `switchPending,
               `fsrInitialized, `fsrEnabled, `fsrSuspended, `fgCtx, `swapCtx, `stage, `retirePending, `device,
               `chain, `owner, `usesSl, `mode, `log
      ensures Inv() && running == (old(running) && chain)
      ensures mode == old(ModeAfter(target, f)) && switchPending == old(StillPending(target, f))
      ensures old(slInitialized) ==> slInitialized && slFactoryExport == old(slFactoryExport)
      ensures Granted(f) && old(Attainable(target)) ==>
                && chain
                && if switchPending
                   then RankAt(StageAfterPresent(stage, true), fsrEnabled, target)
                        < old(RankAt(stage, fsrEnabled, target))
                     && Attainable(target)
                   else Settled(target)
      ensures old(SameVendor(f)) ==> SameVendor(f)
      ensures old(FsrCoherent() && (stage == PassthroughPresented ==> mode == Fsr)) ==> FsrCoherent()
      ensures log.verdict.covered == old(log).verdict.covered
      ensures stage != ReplacementPresented
      ensures old(stage) == ReplacementPresented && stage == ReplacementPresentPending ==> !usesSl
    {
      hide Judge, JudgeStep, Rules, Granted, CanEnter, CanPrepare, Departs, Exported;
      if Granted(f) && Attainable(target) {
        GrantedEnters(target, f);
      }
      ShownReplacement();
      var _ := SwitchMode(target, f);
    }

    lemma NoClockWhenGranted(f: Frame)
      ensures Granted(f) ==> !f.ask(AutoDue) && !f.ask(FsrStressDue) && !f.ask(DlssStressDue)
      ensures Granted(f) ==> f.ask(PresentOk) && !f.ask(DeviceRemoved)
    {
    }

    /** The frame serves a mode request: one that is pending, or that the clock makes now. */
    predicate Serves(f: Frame)
      reads `armed, `switchPending, `manual, `autoStage
    {
      armed && (switchPending || AutoFires(f.ask(AutoDue)))
    }

    function Wanted(f: Frame): Mode
      reads `manual, `autoStage, `pendingMode
    {
      if AutoFires(f.ask(AutoDue)) then NextAuto() else pendingMode
    }

    /** Requests are served once switching is armed: the mode switch first, then a toggle. */
    method ServeSwitch(f: Frame)
      requires Inv() && running
      modifies `fsrLoaded, `slInitialized, `slFactoryExport, `slDeviceSet, `slBoundDevice, `slSetOptions, `slGetState,
               `slReflex, `dlssInitialized, `dlssEnabled, `dlssSuspended, `reflexLow, `running, `switchPending,
               `fsrInitialized, `fsrEnabled, `fsrSuspended, `fgCtx, `swapCtx, `stage, `retirePending, `device,
               `chain, `owner, `usesSl, `mode, `log, `autoStage, `pendingMode, `togglePending, `manual
      ensures Inv() && running == chain
      ensures old(slInitialized) ==> slInitialized && slFactoryExport == old(slFactoryExport)
      ensures mode == old(if Serves(f) then ModeAfter(Wanted(f), f) else mode)
      ensures switchPending == old(if Serves(f) then StillPending(Wanted(f), f) else switchPending)
      ensures pendingMode == old(if armed then Wanted(f) else pendingMode) && manual == old(manual)
      ensures autoStage == old(autoStage) + if old(armed && AutoFires(f.ask(AutoDue))) then 1 else 0
      ensures !old(Serves(f)) ==>
                && log == old(log) && stage == old(stage) && chain == old(chain)
                && fsrEnabled == old(fsrEnabled) && fsrSuspended == old(fsrSuspended)
                && dlssEnabled == old(dlssEnabled) && dlssSuspended == old(dlssSuspended)
                && togglePending == old(togglePending) && reflexLow == old(reflexLow) && slReflex == old(slReflex)
                && fgCtx == old(fgCtx) && usesSl == old(usesSl)
      ensures old(Serves(f)) ==> !togglePending
      ensures Granted(f) ==> pendingMode == old(pendingMode)
      ensures Granted(f) && old(armed && switchPending && Attainable(pendingMode)) ==>
                && running
                && if switchPending
                   then RankAt(StageAfterPresent(stage, true), fsrEnabled, pendingMode)
                        < old(RankAt(stage, fsrEnabled, pendingMode))
                        && Attainable(pendingMode)
                   else Settled(pendingMode)
      ensures old(SameVendor(f)) ==> SameVendor(f)
      ensures old(FsrCoherent() && (stage == PassthroughPresented ==> mode == Fsr)) ==> FsrCoherent()
      ensures log.verdict.covered == old(log).verdict.covered
      ensures stage == ReplacementPresented ==> old(stage) == ReplacementPresented
      ensures old(stage) == ReplacementPresented && stage == ReplacementPresentPending ==> !usesSl
    {
      hide Judge, JudgeStep, Inv, Settled, RankAt, Attainable, SameVendor, FsrCoherent, Granted, ModeAfter,
           StillPending, StageAfterPresent, FlagsNow;
      NoClockWhenGranted(f);
      ReplacingIsOff();
      if !armed {
        return;
      }
      RunAutoSequence(f.ask(AutoDue));
      if switchPending {
        SwitchWhenGranted(pendingMode, f);
      }
    }

    /** A pending toggle is served, and the frame ends as usual. */
    method ServeToggle(f: Frame)
      requires Inv() && running && armed && togglePending
      modifies `stage, `fsrLoaded, `fsrInitialized, `retirePending, `running, `log, `fsrEnabled, `fsrSuspended,
               `dlssEnabled, `dlssSuspended, `stressDidSuspend, `stressDidOff, `reflexLow,
               `pendingMode, `switchPending, `togglePending, `manual
      ensures Inv() && stage == StageAfterPresent(old(stage), f.ask(PresentOk))
      ensures running == (old(running) && (f.ask(PresentOk) || !f.ask(DeviceRemoved))) && manual == old(manual)
      ensures FlagsNow() == old(Toggled(toggleMode, f)) && RequestsNow() == old(RequestsNow().(toggle := false))
      ensures log.calls == old(log.calls + ToggleCalls(toggleMode, f)) + ShowCalls(f)
      ensures old(FsrCoherent()) ==> FsrCoherent()
      ensures log.verdict.covered == if old(Uncovers(f.ask(PresentOk))) then Broken else old(log).verdict.covered
      ensures mode == Off ==> log.verdict.world.dlss == old(log).verdict.world.dlss
    {
      hide Judge, JudgeStep, Append, Inv, FsrCoherent, SyncInterval, StageAfterPresent, Toggled, ToggleCalls, Stressed,
           StressCalls, StressedRequests, ShowCalls;
      ReplacingIsOff();
      ToggleSuspension(toggleMode, f);
      ManualIsCalm(f);
      DrawFrame(f);
    }

    /** A key stops the clocks. */
    lemma ManualIsCalm(f: Frame)
      requires manual || (!f.ask(FsrStressDue) && !f.ask(DlssStressDue))
      ensures StressCalls(f) == [] && Stressed(f) == FlagsNow() && StressedRequests(f) == RequestsNow()
    {
    }

    /** The vendor calls before a frame's image, and what they leave: those of a pending toggle, or of the clocks. */
    function MiddleCalls(f: Frame): seq<Event>
      reads `armed, `togglePending, `toggleMode, `mode, `fsrEnabled, `fsrSuspended, `dlssEnabled, `dlssSuspended,
            `slReflex, `reflexLow, `manual, `fgCtx, `switchPending, `stressDidSuspend
    {
      if armed && togglePending then ToggleCalls(toggleMode, f) else StressCalls(f)
    }

    function MiddleFlags(f: Frame): Flags
      reads `armed, `togglePending, `toggleMode, `mode, `fsrEnabled, `fsrSuspended, `dlssEnabled, `dlssSuspended,
            `manual, `fgCtx, `switchPending, `stressDidSuspend
    {
      if armed && togglePending then Toggled(toggleMode, f) else Stressed(f)
    }

    function MiddleRequests(f: Frame): Requests
      reads `armed, `togglePending, `manual, `mode, `switchPending, `pendingMode, `stressDidSuspend, `stressDidOff
    {
      if armed && togglePending then RequestsNow().(toggle := false) else StressedRequests(f)
    }

    /** A toggle or the stress clocks, and then the image. */
    method EndFrame(f: Frame)
      requires Inv() && running
      modifies `stage, `fsrLoaded, `fsrInitialized, `retirePending, `running, `log, `fsrEnabled, `fsrSuspended,
               `dlssEnabled, `dlssSuspended, `stressDidSuspend, `stressDidOff, `reflexLow,
               `pendingMode, `switchPending, `togglePending, `manual
      ensures Inv() && stage == StageAfterPresent(old(stage), f.ask(PresentOk))
      ensures running == (old(running) && (f.ask(PresentOk) || !f.ask(DeviceRemoved))) && manual == old(manual)
      ensures FlagsNow() == old(MiddleFlags(f)) && RequestsNow() == old(MiddleRequests(f))
      ensures log.calls == old(log.calls + MiddleCalls(f)) + ShowCalls(f)
      ensures old(FsrCoherent()) ==> FsrCoherent()
      ensures log.verdict.covered == if old(Uncovers(f.ask(PresentOk))) then Broken else old(log).verdict.covered
      ensures mode == Off ==> log.verdict.world.dlss == old(log).verdict.world.dlss
    {
      hide Judge, JudgeStep, Append, Inv, FsrCoherent, SyncInterval, StageAfterPresent, Toggled, ToggleCalls, Stressed,
           StressCalls, StressedRequests, ShowCalls, Uncovers;
      ReplacingIsOff();
      if armed && togglePending {
        ServeToggle(f);
      } else {
        DrawFrame(f);
      }
    }

    lemma SameCalls(t: Trace, u: Trace)
      requires t.calls == u.calls
      ensures t == u
    {
    }

    /** The rest of a frame: a toggle, the stress clocks, and the Present. */
    method FinishFrame(f: Frame)
      requires Inv() && running
      modifies `stage, `fsrLoaded, `fsrInitialized, `retirePending, `running, `log, `fsrEnabled, `fsrSuspended,
               `dlssEnabled, `dlssSuspended, `stressDidSuspend, `stressDidOff, `reflexLow,
               `pendingMode, `switchPending, `togglePending, `manual
      ensures Inv()
      ensures running == (old(running) && (f.ask(PresentOk) || !f.ask(DeviceRemoved))) && manual == old(manual)
      ensures FlagsNow() == old(MiddleFlags(f)) && RequestsNow() == old(MiddleRequests(f))
      ensures log.calls == old(log.calls + MiddleCalls(f)) + ShowCalls(f)
      ensures stage == StageAfterPresent(old(stage), f.ask(PresentOk))
      ensures Granted(f) ==> running && pendingMode == old(pendingMode) && switchPending == old(switchPending)
                             && stage == StageAfterPresent(old(stage), true)
      ensures Granted(f) && old(switchPending) ==> fsrEnabled == old(fsrEnabled)
      ensures forall t :: Granted(f) && old(Settled(t)) ==> Settled(t)
      ensures Granted(f) && !old(togglePending) ==>
                !togglePending && fsrEnabled == old(fsrEnabled) && dlssEnabled == old(dlssEnabled)
                && dlssSuspended == old(dlssSuspended)
      ensures Granted(f) && old(!(fsrEnabled && cfg.fsrConfigureEveryFrame) && !togglePending) ==>
                log == Append(old(log), Presented(true, old(SyncInterval())))
      ensures Shows(f.ask(PresentOk), old(SyncInterval()))
      ensures old(FsrCoherent()) ==> FsrCoherent()
      ensures log.verdict.covered == if old(Uncovers(f.ask(PresentOk))) then Broken else old(log).verdict.covered
      ensures mode == Off ==> log.verdict.world.dlss == old(log).verdict.world.dlss
    {
      hide Judge, JudgeStep, Append, Inv, FsrCoherent, Granted, Stressed, StressCalls, StressedRequests;
      NoClockWhenGranted(f);
      ReplacingIsOff();
      if Granted(f) {
        ManualIsCalm(f);
      }
      EndFrame(f);
      SyncStays(f, old(stage));
      if Granted(f) && old(!(fsrEnabled && cfg.fsrConfigureEveryFrame) && !togglePending) {
        SameCalls(log, Append(old(log), Presented(true, old(SyncInterval()))));
      }
    }

    /** The mode a frame leaves. */
    function FrameMode(f: Frame): Mode
      reads this
    {
      if Serves(f) then ModeAfter(Wanted(f), f) else mode
    }

    /** The latest calls. */
    ghost predicate EndsIn(tail: seq<Event>)
      reads `log
    {
      |tail| <= |log.calls| && log.calls[|log.calls| - |tail|..] == tail
    }

    /** The image after a switch. */
    method FinishServed(f: Frame)
      requires Inv() && running && !togglePending
      modifies `stage, `fsrLoaded, `fsrInitialized, `retirePending, `running, `log, `fsrEnabled, `fsrSuspended,
               `dlssEnabled, `dlssSuspended, `stressDidSuspend, `stressDidOff, `reflexLow,
               `pendingMode, `switchPending, `togglePending, `manual
      ensures Inv() && manual == old(manual) && EndsIn(ShowCalls(f))
      ensures stage == StageAfterPresent(old(stage), f.ask(PresentOk))
      ensures Granted(f) ==>
                && running && pendingMode == old(pendingMode) && switchPending == old(switchPending)
                && fsrEnabled == old(fsrEnabled) && f.ask(PresentOk)
      ensures forall t :: Granted(f) && old(Settled(t)) ==> Settled(t)
      ensures Shows(f.ask(PresentOk), old(SyncInterval()))
      ensures old(FsrCoherent()) ==> FsrCoherent()
      ensures log.verdict.covered == if old(Uncovers(f.ask(PresentOk))) then Broken else old(log).verdict.covered
      ensures mode == Off ==> log.verdict.world.dlss == old(log).verdict.world.dlss
    {
      hide Judge, JudgeStep, Append, Inv, FsrCoherent, Granted, SyncInterval, Shows, ShowCalls, MiddleCalls,
           MiddleFlags, MiddleRequests, EndsIn, Settled, Uncovers, FlagsNow, RequestsNow;
      NoClockWhenGranted(f);
      ghost var calls := log.calls + MiddleCalls(f);
      FinishFrame(f);
      EndsSo(calls, ShowCalls(f));
    }

    /** A frame that serves a mode request. */
    method ServedFrame(f: Frame)
      requires Inv() && running && Serves(f)
      modifies this
      ensures Inv() && armed == old(armed) && manual == old(manual)
      ensures mode == old(ModeAfter(Wanted(f), f)) && (chain ==> EndsIn(ShowCalls(f)))
      ensures autoStage == old(autoStage) + if old(AutoFires(f.ask(AutoDue))) then 1 else 0
      ensures old(slInitialized) ==> slInitialized && slFactoryExport == old(slFactoryExport)
      ensures Granted(f) && old(switchPending && Attainable(pendingMode)) ==>
                && running && pendingMode == old(pendingMode)
                && if switchPending
                   then RankAt(stage, fsrEnabled, pendingMode) < old(RankAt(stage, fsrEnabled, pendingMode))
                     && Attainable(pendingMode)
                   else Settled(pendingMode)
      ensures running ==> exists sync :: Shows(f.ask(PresentOk), sync)
      ensures old(SameVendor(f)) ==> SameVendor(f)
      ensures old(FsrCoherent() && (stage == PassthroughPresented ==> mode == Fsr)) ==> FsrCoherent()
      ensures log.verdict.covered ==
                if old(stage) != ReplacementPresented && stage == ReplacementPresented && usesSl
                   && log.verdict.world.dlss == Stuck
                then Broken else old(log).verdict.covered
    {
      hide Judge, JudgeStep, Append, Core, Attainable, Granted, Inv, RankAt, Settled, SameVendor, FsrCoherent, Shows,
           ShowCalls, MiddleCalls, MiddleFlags, MiddleRequests, ModeAfter, StillPending, FlagsNow, SyncInterval, EndsIn;
      ServeSwitch(f);
      ReplacingIsOff();
      if running && chain {
        FinishServed(f);
      }
    }

    /**
     One frame. Whatever fails, the invariant survives it; and when nothing fails, a pending request that can
     be met is met now or is strictly nearer to being met.
     */
    method Render(f: Frame)
      requires Inv() && running
      modifies this
      ensures Inv() && armed == old(armed) && manual == old(manual)
      // exactly which mode it ends in, and what it calls last
      ensures mode == old(FrameMode(f)) && (chain ==> EndsIn(ShowCalls(f)))
      ensures autoStage == old(autoStage) + if old(armed && AutoFires(f.ask(AutoDue))) then 1 else 0
      // with no switch to serve, exactly what it calls and what it leaves: a pending toggle is served
      ensures !old(Serves(f)) ==>
                && log.calls == old(log.calls + MiddleCalls(f)) + ShowCalls(f)
                && FlagsNow() == old(MiddleFlags(f)) && RequestsNow() == old(MiddleRequests(f))
                && stage == StageAfterPresent(old(stage), f.ask(PresentOk))
                && running == (f.ask(PresentOk) || !f.ask(DeviceRemoved))
      ensures old(slInitialized) ==> slInitialized && slFactoryExport == old(slFactoryExport)
      ensures Granted(f) && old(armed && switchPending && Attainable(pendingMode)) ==>
                && running && pendingMode == old(pendingMode)
                && if switchPending
                   then RankAt(stage, fsrEnabled, pendingMode) < old(RankAt(stage, fsrEnabled, pendingMode))
                     && Attainable(pendingMode)
                   else Settled(pendingMode)
      ensures running ==> exists sync :: Shows(f.ask(PresentOk), sync)
      ensures old(SameVendor(f)) ==> SameVendor(f)
      ensures old(FsrCoherent() && (stage == PassthroughPresented ==> mode == Fsr)) ==> FsrCoherent()
      ensures log.verdict.covered ==
                if old(stage) != ReplacementPresented && stage == ReplacementPresented && usesSl
                   && log.verdict.world.dlss == Stuck
                then Broken else old(log).verdict.covered
    {
      hide Judge, JudgeStep, Append, Core, Attainable, Granted, Inv, RankAt, Settled, SameVendor, FsrCoherent, Shows,
           ShowCalls, MiddleCalls, MiddleFlags, MiddleRequests, ModeAfter, FlagsNow, SyncInterval, Wanted, EndsIn;
      ReplacingIsOff();
      if Serves(f) {
        ServedFrame(f);
      } else {
        FinishFrame(f);
        EndsSo(old(log.calls + MiddleCalls(f)), ShowCalls(f));
      }
    }

    lemma EndsSo(front: seq<Event>, tail: seq<Event>)
      requires log.calls == front + tail
      ensures EndsIn(tail)
    {
    }

    // -------------------------------------------------------------------------------------------
    // Start-up, the message loop and clean-up
    // -------------------------------------------------------------------------------------------

    /** The state the constructor leaves, whatever has been loaded since. */
    ghost predicate Blank()
      reads this
    {
      && mode == Off && running && stage == NoStage && !switchPending && !togglePending && !armed
      && !fsrInitialized && !fsrEnabled && !fgCtx && !swapCtx
      && (slFactoryExport ==> slInitialized) && !slSetOptions && !slGetState && !slReflex && !slDeviceSet
      && slBoundDevice == 0 && !dlssInitialized && !dlssEnabled && !dlssSuspended && !reflexLow
      && device == 0 && !chain && owner == NativeOwner && !usesSl && log == NO_CALLS
    }

    lemma BlankIsUnarmed()
      requires Blank()
      ensures !armed
    {
    }

    /** The optional disabled FSR context on the native swapchain. */
    method StartFsrContext(f: Frame)
      requires Inv() && NothingEnabled() && mode == Off && stage == NoStage && !fgCtx && !swapCtx && !usesSl
      modifies `fgCtx, `fsrInitialized, `log
      ensures Inv() && !usesSl && fgCtx == (cfg.fsrStartupContext && fsrLoaded && f.ask(FsrContext))
      ensures log == if fgCtx then Append(old(log), FsrConfigured(false, f.ask(FsrStartup))) else old(log)
      ensures log.verdict == old(log).verdict.(world := log.verdict.world)
      ensures f.ask(FsrStartup) ==> log.verdict.world.life == old(log).verdict.world.life
      ensures var w := log.verdict.world; w == old(log).verdict.world.(fsr := w.fsr, life := w.life)
    {
      hide Judge, JudgeStep, Append;
      if cfg.fsrStartupContext && fsrLoaded {
        var _ := EnsureFsrContext(f);
      }
    }

    method StartDisabled(f: Frame)
      requires Inv() && !dlssEnabled && dlssInitialized
      modifies `reflexLow, `log
      ensures Inv()
      ensures log.verdict == DlssSet(old(log).verdict, false, f.ask(DlssOff))
      ensures log.calls == old(log).calls + [DlssGSet(false, f.ask(DlssOff))]
    {
      hide Judge, JudgeStep, Append, FsrHandles;
      var _ := SwitchDlssOff(f.ask(DlssOff));
    }

    method InitDlssEarly(f: Frame)
      requires Core() && !usesSl && !dlssInitialized && !reflexLow
      modifies `slDeviceSet, `slBoundDevice, `slSetOptions, `slGetState, `slReflex, `reflexLow, `dlssInitialized, `log
      ensures Core() && log == old(log) && dlssInitialized == old(BindsAgain(f) && FeaturesResolve(f))
      ensures old(SameVendor(f)) ==> SameVendor(f)
    {
      hide Judge, JudgeStep, Append, AgreesWith, RulesOf, FsrHandles;
      dlssInitialized := TryInitDlss(f);
    }

    method StartDlss(f: Frame)
      requires Inv() && mode == Off && stage == NoStage && !usesSl && !dlssEnabled && !dlssSuspended && !dlssInitialized
      requires !reflexLow
      modifies `slDeviceSet, `slBoundDevice, `slSetOptions, `slGetState, `slReflex, `reflexLow, `dlssInitialized, `log
      ensures Inv() && dlssInitialized == old(BindsAgain(f) && FeaturesResolve(f))
      ensures log.calls == old(log).calls + if dlssInitialized then [DlssGSet(false, f.ask(DlssOff))] else []
      ensures log.verdict == old(log).verdict || log.verdict == DlssSet(old(log).verdict, false, f.ask(DlssOff))
      ensures old(SameVendor(f)) ==> SameVendor(f)
    {
      hide Judge, JudgeStep, Append, Core;
      if slInitialized {
        InitDlssEarly(f);
      }
      if dlssInitialized {
        StartDisabled(f);
      }
    }

    method PreloadRuntimes(f: Frame)
      requires Blank() && !slInitialized
      modifies `slInitialized, `slFactoryExport, `fsrLoaded
      ensures Blank()
      ensures slInitialized == (cfg.streamlinePreload && f.ask(SlLoad))
      ensures slInitialized ==> slFactoryExport == f.ask(SlFactoryExport)
      ensures fsrLoaded == if cfg.fsrPreload || cfg.fsrStartupContext then f.ask(FsrLoad) else old(fsrLoaded)
    {
      hide Judge;
      if cfg.streamlinePreload {
        var _ := LoadStreamline(f);
      }
      if cfg.fsrPreload || cfg.fsrStartupContext {
        fsrLoaded := f.ask(FsrLoad);
      }
    }

    /** Nothing has been asked of the runtimes yet; at most a first swapchain was made. */
    ghost predicate Untouched(v: Verdict, kind: ChainKind) {
      v == NOTHING_YET.(world := EMPTY_WORLD.(chain := kind))
    }

    lemma NothingCalled()
      ensures Untouched(NO_CALLS.verdict, NoChain) && NO_CALLS.calls == []
    {
      hide Judge;
    }

    lemma FirstChain(kind: ChainKind)
      ensures var t := Append(NO_CALLS, ChainCreated(kind));
              Untouched(t.verdict, kind) && t.calls == [ChainCreated(kind)]
    {
      hide Judge;
    }

    predicate Idle()
      reads `mode, `stage, `switchPending, `togglePending
    {
      mode == Off && stage == NoStage && !switchPending && !togglePending
    }

    /** What preloading and the first renderer leave: at most a native swapchain, and nothing enabled. */
    ghost predicate Fresh()
      reads this
    {
      && Idle() && running == chain
      && !fsrInitialized && !fsrEnabled && !fgCtx && !swapCtx && !slSetOptions && !slGetState && !slReflex
      && !dlssInitialized && !dlssEnabled && !dlssSuspended && !reflexLow && owner == NativeOwner && !usesSl
      && (chain ==> device != 0) && (slBoundDevice != 0 || slFactoryExport ==> slInitialized)
      && (slDeviceSet ==> slBoundDevice != 0)
      && Untouched(log.verdict, if chain then NativeChain else NoChain)
    }

    lemma FreshIsSteady()
      requires Fresh()
      ensures Inv() && (chain ==> NothingEnabled()) && Idle() && running == chain
      ensures !usesSl && !swapCtx && !dlssEnabled && !fsrEnabled
      ensures !fgCtx && !dlssInitialized && !slSetOptions && !slGetState
    {
      hide Judge;
    }

    method FirstRenderer(f: Frame)
      requires Blank() && (slInitialized ==> slFactoryExport == f.ask(SlFactoryExport))
      modifies `device, `slDeviceSet, `slBoundDevice, `chain, `owner, `usesSl, `swapCtx, `log, `running
      ensures Fresh() && chain == (RendererGranted(f) && f.ask(PlainChain)) && (chain ==> device == f.device)
      ensures chain ==> SameVendor(f)
      ensures chain ==> slDeviceSet == (slInitialized && f.ask(SlSetDevice)) && (slDeviceSet || slBoundDevice == 0)
      ensures log.calls == if chain then [ChainCreated(NativeChain)] else []
    {
      hide Judge, JudgeStep, Append, NO_CALLS;
      NothingCalled();
      FirstChain(NativeChain);
      running := InitDx12(false, f);
    }

    /** The calls that leave the preloaded runtimes disabled. */
    function StartCalls(f: Frame): seq<Event>
      reads `fgCtx, `dlssInitialized
    {
      (if fgCtx then [FsrConfigured(false, f.ask(FsrStartup))] else [])
      + if dlssInitialized then [DlssGSet(false, f.ask(DlssOff))] else []
    }

    /** Streamline takes the device when it is made, or when its features are prepared. */
    lemma StartBinds(f: Frame)
      requires Fresh() && chain && slDeviceSet == (slInitialized && f.ask(SlSetDevice))
      requires slDeviceSet || slBoundDevice == 0
      ensures BindsAgain(f) && FeaturesResolve(f)
              <==> slInitialized && (f.ask(SlSetDevice) || f.ask(SlSetDeviceAgain))
                   && f.ask(ResolveSetOptions) && f.ask(ResolveGetState)
    {
      hide Judge;
    }

    lemma NothingStarted(f: Frame)
      requires !fgCtx && !dlssInitialized
      ensures StartCalls(f) == []
    {
    }

    /** The runtimes that were preloaded get their disabled contexts. */
    method StartRuntimes(f: Frame)
      requires Fresh() && chain
      modifies `fgCtx, `fsrInitialized, `slDeviceSet, `slBoundDevice, `slSetOptions, `slGetState, `slReflex, `reflexLow,
               `dlssInitialized, `log
      ensures fgCtx == (cfg.fsrStartupContext && fsrLoaded && f.ask(FsrContext))
      ensures dlssInitialized == old(BindsAgain(f) && FeaturesResolve(f))
      ensures log.calls == old(log).calls + StartCalls(f)
      ensures Inv() && log.verdict.switches == NeverFailed && log.verdict.world.dlss == Stopped
      ensures f.ask(FsrStartup) ==> log.verdict.world.life == NeverFailed
      ensures f.ask(DlssOff) ==> log.verdict.dlssOffCalls == NeverFailed
      ensures old(SameVendor(f)) ==> SameVendor(f)
    {
      hide Judge, JudgeStep, Append, Inv, NothingEnabled;
      FreshIsSteady();
      StartFsrContext(f);
      StartDlss(f);
    }

    /** The runtimes are preloaded before the first renderer is made. */
    method MakeRenderer(f: Frame)
      requires Blank() && !slInitialized
      modifies `slInitialized, `slFactoryExport, `fsrLoaded, `device, `slDeviceSet, `slBoundDevice, `chain, `owner,
               `usesSl, `swapCtx, `log, `running
      ensures Fresh() && !armed && chain == (RendererGranted(f) && f.ask(PlainChain))
      ensures slInitialized == (cfg.streamlinePreload && f.ask(SlLoad)) && (chain ==> SameVendor(f))
      ensures cfg.fsrPreload || cfg.fsrStartupContext ==> fsrLoaded == f.ask(FsrLoad)
      ensures chain ==> slDeviceSet == (slInitialized && f.ask(SlSetDevice)) && (slDeviceSet || slBoundDevice == 0)
      ensures log.calls == if chain then [ChainCreated(NativeChain)] else []
    {
      hide Judge, NO_CALLS, Untouched, RendererGranted, Blank, Fresh, SameVendor;
      BlankIsUnarmed();
      PreloadRuntimes(f);
      FirstRenderer(f);
    }

    /** Everything `main` does before its loop; a renderer that cannot be made ends the run. */
    method Startup(f: Frame)
      requires Blank() && !slInitialized
      modifies this
      ensures Inv() && Idle()
      ensures running == armed == chain == (RendererGranted(f) && f.ask(PlainChain))
      ensures slInitialized == (cfg.streamlinePreload && f.ask(SlLoad))
      // the preloaded runtimes are left disabled
      ensures cfg.fsrPreload || cfg.fsrStartupContext ==> fsrLoaded == f.ask(FsrLoad)
      ensures fgCtx == (chain && cfg.fsrStartupContext && fsrLoaded && f.ask(FsrContext))
      ensures dlssInitialized ==
                (chain && slInitialized && (f.ask(SlSetDevice) || f.ask(SlSetDeviceAgain))
                 && f.ask(ResolveSetOptions) && f.ask(ResolveGetState))
      ensures log.calls == (if chain then [ChainCreated(NativeChain)] else []) + StartCalls(f)
      ensures chain ==> SameVendor(f) && !usesSl && !swapCtx && !dlssEnabled && !fsrEnabled
    {
      hide Judge, JudgeStep, Append, Inv, NO_CALLS, Idle, SameVendor, NothingEnabled, Untouched, RendererGranted,
           Blank, Fresh, StartCalls, BindsAgain, FeaturesResolve;
      MakeRenderer(f);
      FreshIsSteady();
      NothingStarted(f);
      if running {
        StartBinds(f);
        StartRuntimes(f);
        armed := true;
      }
    }

    method FinishFsrPreload()
      requires Inv()
      modifies `fsrLoaded
      ensures Inv() && fsrLoaded
    {
      hide Judge, Rules, SlHandles, Agrees;
      fsrLoaded := true;
    }

    predicate Asked(target: Mode)
      reads `switchPending, `pendingMode, `togglePending, `toggleMode
    {
      (switchPending && pendingMode == target) || (togglePending && toggleMode == target)
    }

    /** The latest input has had its effect, unless it ended the session. */
    ghost predicate Answered(i: Input)
      reads `running, `switchPending, `pendingMode, `togglePending, `toggleMode, `fsrLoaded, `log
    {
      running ==>
        match i
        case Key1 => switchPending && pendingMode == Off
        case Key2 => Asked(Dlss)
        case Key3 => Asked(Fsr)
        case Escape => false
        case FsrPreloaded => fsrLoaded
        case NextFrame(f) => exists sync :: Shows(f.ask(PresentOk), sync)
    }

    /** The mode a key asks for. */
    function KeyMode(i: Input): Mode
      requires i.Key1? || i.Key2? || i.Key3?
    {
      match i
      case Key1 => Off
      case Key2 => Dlss
      case Key3 => Fsr
    }

    /** Escape, a key, a finished background load, or the next frame. */
    method Step(i: Input)
      requires Inv()
      modifies this
      ensures Inv() && armed == old(armed)
      ensures Answered(i)
      ensures mode == old(if running && i.NextFrame? then FrameMode(i.f) else mode)
      // a key for the mode that is current toggles its suspension, any other asks for its mode
      ensures old(running) && (i.Key1? || i.Key2? || i.Key3?) ==>
                var target := KeyMode(i);
                var toggles := target != Off && old(mode == target && !switchPending);
                && running && FlagsNow() == old(FlagsNow()) && log == old(log) && manual
                && togglePending == toggles && (toggles ==> toggleMode == target)
                && (!toggles ==> switchPending && pendingMode == target)
      // and the next frame serves the toggle
      ensures i.NextFrame? && old(running && armed && togglePending) ==>
                && FlagsNow() == old(Toggled(toggleMode, i.f)) && !togglePending && !switchPending && manual
                && running == (i.f.ask(PresentOk) || !i.f.ask(DeviceRemoved))
                && log.calls == old(log.calls + ToggleCalls(toggleMode, i.f)) + ShowCalls(i.f)
      ensures !old(running) ==> log == old(log) && !running && mode == old(mode)
      ensures old(slInitialized) ==> slInitialized && slFactoryExport == old(slFactoryExport)
      ensures forall f :: (i.NextFrame? ==> SameMachine(i.f, f)) && old(SameVendor(f)) ==> SameVendor(f)
      ensures old(FsrCoherent() && (stage == PassthroughPresented ==> mode == Fsr)) ==> FsrCoherent()
    {
      hide Judge, Inv, Toggled, ToggleCalls, ShowCalls, ModeAfter, FsrCoherent, FlagsNow;
      ReplacingIsOff();
      if !running {
        return;
      }
      match i {
        case Key1 => RequestMode(Off, true);
        case Key2 => RequestModeOrToggle(Dlss);
        case Key3 => RequestModeOrToggle(Fsr);
        case Escape => StopRunning();
        case FsrPreloaded => FinishFsrPreload();
        case NextFrame(f) => Render(f);
      }
    }

    lemma NoExportNoDlss()
      requires Inv() && slInitialized && !slFactoryExport
      ensures mode != Dlss
    {
      hide FsrHandles, Agrees, Rules;
    }

    /**
     A whole session, in any order of inputs and with any outcomes. Without the Streamline factory DLSS mode
     is never reached; on a machine that stays the same, DLSS stays as attainable as it was.
     */
    method Play(inputs: seq<Input>)
      requires Inv()
      modifies this
      ensures Inv() && armed == old(armed) && (!old(running) ==> !running)
      ensures inputs != [] ==> Answered(inputs[|inputs| - 1])
      ensures old(slInitialized && !slFactoryExport) ==> mode != Dlss
      ensures forall f :: OnMachine(inputs, f) && old(SameVendor(f)) ==> SameVendor(f)
    {
      hide *;
      var k := 0;
      while k < |inputs|
        invariant 0 <= k <= |inputs| && Inv() && armed == old(armed) && (!old(running) ==> !running)
        invariant k > 0 ==> Answered(inputs[k - 1])
        invariant old(slInitialized && !slFactoryExport) ==> slInitialized && !slFactoryExport
        invariant forall f :: OnMachine(inputs[..k], f) && old(SameVendor(f)) ==> SameVendor(f)
      {
        MachineSoFar(inputs, k);
        Step(inputs[k]);
        k := k + 1;
      }
      assert inputs[..k] == inputs;
      if old(slInitialized && !slFactoryExport) {
        NoExportNoDlss();
      }
    }

    /** With nothing failing, a request that can be met is met within three frames. */
    method CompleteRequest(first: Frame, second: Frame, third: Frame)
      requires Inv() && running && armed && switchPending && Attainable(pendingMode)
      requires Granted(first) && Granted(second) && Granted(third)
      modifies this
      ensures Inv() && running && Settled(old(pendingMode))
    {
      hide Judge, Inv, Granted, Settled;
      Render(first);
      if switchPending {
        Render(second);
      }
      if switchPending {
        Render(third);
      }
    }

    /** DLSS-G is told to go off while its options call is still there. */
    method DisableDlss(f: Frame)
      modifies `dlssEnabled, `reflexLow, `log
      ensures var disables := old(dlssEnabled) && slSetOptions;
              && dlssEnabled == (old(dlssEnabled) && !disables) && reflexLow == old(reflexLow)
              && log.calls == old(log).calls + (if disables then [DlssGSet(false, f.ask(DlssOff))] else [])
              && log.verdict == if disables then DlssSet(old(log).verdict, false, f.ask(DlssOff)) else old(log).verdict
    {
      hide Judge, JudgeStep, Append, DlssSet;
      if dlssEnabled && slSetOptions {
        var _ := SwitchDlssOff(f.ask(DlssOff));
        dlssEnabled := false;
      }
    }

    method ShutdownStreamline(f: Frame)
      requires !chain && !usesSl && log.verdict.world.chain == NoChain
      modifies `slInitialized, `slFactoryExport, `slSetOptions, `slGetState, `slReflex, `slDeviceSet, `slBoundDevice,
               `dlssInitialized, `dlssEnabled, `dlssSuspended, `reflexLow, `log
      ensures !slInitialized && !slFactoryExport && !slSetOptions && !slGetState && !slReflex && !slDeviceSet
      ensures slBoundDevice == 0 && !dlssInitialized && !dlssEnabled && !dlssSuspended && !reflexLow
      ensures log.verdict == old(log).verdict || log.verdict == DlssSet(old(log).verdict, false, f.ask(DlssOff))
      ensures log.verdict.world.chain == NoChain && SameFindings(old(log).verdict, log.verdict)
      ensures log.calls == old(log).calls
                           + (if old(dlssEnabled && slSetOptions) then [DlssGSet(false, f.ask(DlssOff))] else [])
                           + if old(slReflex && reflexLow) then [ReflexSet(false, f.ask(ReflexRelease))] else []
    {
      hide Judge, JudgeStep, Append;
      DisableDlss(f);
      dlssSuspended := false;
      ApplyReflexMode(false, f.ask(ReflexRelease));
      slInitialized, slFactoryExport, slSetOptions, slGetState, slReflex := false, false, false, false, false;
      slDeviceSet, slBoundDevice, dlssInitialized, dlssEnabled, reflexLow := false, 0, false, false, false;
    }

    method Release()
      requires chain || log.verdict.world.chain == NoChain
      modifies `chain, `usesSl, `device, `log
      ensures !chain && !usesSl && device == 0
      ensures log.verdict.world.chain == NoChain && SameFindings(old(log).verdict, log.verdict)
      ensures log.calls == old(log).calls + if old(chain) then [ChainReleased] else []
    {
      hide Judge;
      ReleaseRenderer();
    }

    /** What an exit asks of DLSS-G, of FSR and its swapchain, and of Reflex. */
    function StopCalls(f: Frame): seq<Event>
      reads `dlssEnabled
    {
      if dlssEnabled then [DlssGSet(false, f.ask(DlssOff))] else []
    }

    function DropCalls(f: Frame): seq<Event>
      reads `fgCtx, `swapCtx, `chain
    {
      DestroyCalls(f) + if chain then [ChainReleased] else []
    }

    function ReflexCalls(f: Frame): seq<Event>
      reads `reflexLow
    {
      if reflexLow then [ReflexSet(false, f.ask(ReflexRelease))] else []
    }

    /** DLSS-G goes off while its swapchain is still there. */
    method StopDlss(f: Frame)
      requires log.verdict.lawful == Kept && (dlssEnabled ==> slSetOptions && device != 0)
      modifies `dlssEnabled, `dlssSuspended, `reflexLow, `log
      ensures dlssEnabled == (old(dlssEnabled) && device == 0) && dlssSuspended == (old(dlssSuspended) && device == 0)
      ensures reflexLow == old(reflexLow)
      ensures log.calls == old(log.calls + StopCalls(f))
      ensures log.verdict.world.chain == old(log).verdict.world.chain && SameFindings(old(log).verdict, log.verdict)
    {
      hide Judge, JudgeStep, Append;
      if device != 0 {
        if dlssEnabled {
          var _ := SwitchDlssOff(f.ask(DlssOff));
          dlssEnabled := false;
        }
        dlssSuspended := false;
      }
    }

    /** Both contexts go, dirty or not. */
    method DropProxy(f: Frame)
      requires FsrHandles() && (chain || log.verdict.world.chain == NoChain)
      modifies `log, `fgCtx, `swapCtx, `fsrEnabled, `fsrSuspended, `fsrInitialized, `stage
      ensures !fgCtx && !swapCtx && !fsrEnabled && !fsrSuspended && stage == NoStage
      ensures chain || log.verdict.world.chain == NoChain
      ensures SameFindings(old(log).verdict, log.verdict) && log.calls == old(log.calls + DestroyCalls(f))
    {
      hide Judge, JudgeStep, Append, FsrHandles, TornDown, DestroyCalls;
      TornDownMeans(log.verdict, fgCtx, swapCtx, f);
      DestroyFsrContexts(f);
    }

    lemma InvAtExit()
      requires Inv()
      ensures FsrHandles() && log.verdict.lawful == Kept && (chain || log.verdict.world.chain == NoChain)
      ensures (dlssEnabled ==> slSetOptions && device != 0) && (reflexLow ==> slReflex)
    {
    }

    /** The proxy goes before the swapchain. */
    method DropRenderer(f: Frame)
      requires FsrHandles() && (chain || log.verdict.world.chain == NoChain)
      modifies `log, `fgCtx, `swapCtx, `fsrEnabled, `fsrSuspended, `fsrInitialized, `stage, `chain, `usesSl, `device
      ensures !fgCtx && !swapCtx && !fsrEnabled && !fsrSuspended && !chain && !usesSl && device == 0
      ensures log.verdict.world.chain == NoChain && SameFindings(old(log).verdict, log.verdict)
      ensures log.calls == old(log.calls + DropCalls(f))
    {
      hide Judge, JudgeStep, Append, FsrHandles, TornDown, DestroyCalls;
      DropProxy(f);
      Release();
    }

    /** Both runtimes go, and nothing was enabled any more. */
    method UnloadRuntimes(f: Frame)
      requires !chain && !usesSl && log.verdict.world.chain == NoChain && !dlssEnabled && (reflexLow ==> slReflex)
      modifies `slInitialized, `slFactoryExport, `slSetOptions, `slGetState, `slReflex, `slDeviceSet, `slBoundDevice,
               `dlssInitialized, `dlssEnabled, `dlssSuspended, `reflexLow, `log, `fsrLoaded, `fsrInitialized
      ensures !fsrLoaded && !fsrInitialized && !slInitialized && !slDeviceSet && slBoundDevice == 0
      ensures !dlssInitialized && !dlssEnabled && !dlssSuspended && !reflexLow
      ensures log.calls == old(log.calls + ReflexCalls(f))
      ensures log.verdict.world.chain == NoChain && SameFindings(old(log).verdict, log.verdict)
    {
      hide Judge, JudgeStep, Append;
      ShutdownStreamline(f);
      fsrLoaded, fsrInitialized := false, false;
    }

    /** The end of the program: everything goes, in an order that keeps the unconditional rules. */
    method Cleanup(f: Frame)
      requires Inv()
      modifies this
      ensures !chain && device == 0 && !fgCtx && !swapCtx && !fsrEnabled && !fsrSuspended
      ensures !fsrLoaded && !fsrInitialized
      ensures !slInitialized && !slDeviceSet && slBoundDevice == 0 && !dlssInitialized && !dlssEnabled && !dlssSuspended
      ensures !reflexLow && log.calls == old(log.calls + StopCalls(f) + DropCalls(f) + ReflexCalls(f))
      ensures log.verdict.lawful == Kept && log.verdict.world.chain == NoChain
      ensures SameFindings(old(log).verdict, log.verdict) && old(log).calls <= log.calls
    {
      hide Judge, JudgeStep, Append, Inv, FsrHandles, TornDown, DlssSet, StopCalls, DropCalls, ReflexCalls;
      InvAtExit();
      StopDlss(f);
      DropRenderer(f);
      UnloadRuntimes(f);
    }
  }
}

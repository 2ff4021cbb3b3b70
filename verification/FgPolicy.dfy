/** The pure switch and present policies of the frame-generation test application. */
module FgPolicy {

  /** How far the staged exit from FSR, or the staged replacement by a Streamline chain, has come. */
  datatype Stage =
    | NoStage
    | PresentPending
    | PassthroughPresented
    | ReplacementPresentPending
    | ReplacementPresented

  datatype ExitAction = ContinueSwitch | DisableAndPresentPassthrough | PresentPassthrough

  function ResolveFsrExitAction(currentIsFsr: bool, targetIsFsr: bool, fsrEnabled: bool, stage: Stage): ExitAction {
    if !currentIsFsr || targetIsFsr then ContinueSwitch
    else if stage == PresentPending then PresentPassthrough
    else if stage == NoStage && fsrEnabled then DisableAndPresentPassthrough
    else ContinueSwitch
  }

  predicate ShouldPrepareDlss(currentIsFsr: bool, targetIsDlss: bool, dlssReady: bool, stage: Stage) {
    currentIsFsr && targetIsDlss && !dlssReady && stage == PassthroughPresented
  }

  predicate CanCommitFsrBreak(currentIsFsr: bool, targetIsDlss: bool, dlssReady: bool, stage: Stage) {
    currentIsFsr && stage == PassthroughPresented && (!targetIsDlss || dlssReady)
  }

  predicate IsReplacementStage(stage: Stage) {
    stage == ReplacementPresentPending || stage == ReplacementPresented
  }

  /** An active FSR shows one passthrough image before any exit; nothing else does. */
  lemma ExitMeans(currentIsFsr: bool, targetIsFsr: bool, fsrEnabled: bool, stage: Stage)
    ensures var action := ResolveFsrExitAction(currentIsFsr, targetIsFsr, fsrEnabled, stage);
            && (action.DisableAndPresentPassthrough? <==>
                  currentIsFsr && !targetIsFsr && fsrEnabled && stage == NoStage)
            && (action.PresentPassthrough? <==> currentIsFsr && !targetIsFsr && stage == PresentPending)
  {
  }

  /** Once that image is shown, and only then, DLSS is prepared if it is wanted and missing, or else FSR is left. */
  lemma BreakMeans(currentIsFsr: bool, targetIsDlss: bool, dlssReady: bool, stage: Stage)
    ensures var prepare := ShouldPrepareDlss(currentIsFsr, targetIsDlss, dlssReady, stage);
            var commit := CanCommitFsrBreak(currentIsFsr, targetIsDlss, dlssReady, stage);
            && (prepare || commit <==> currentIsFsr && stage == PassthroughPresented)
            && (prepare ==> targetIsDlss && !dlssReady) && (commit ==> !targetIsDlss || dlssReady)
  {
  }

  datatype PresentPolicy = PresentPolicy(syncInterval: nat, allowTearing: bool)

  /** The configured interval is a signed number that is cast to 32 unsigned bits. */
  function ResolvePresentPolicy(proxyTarget: bool, vsync: int, chainAllowsTearing: bool): (p: PresentPolicy)
    ensures p.syncInterval < 0x1_0000_0000 && (proxyTarget ==> p.syncInterval == 0)
    ensures !proxyTarget && 0 <= vsync < 0x1_0000_0000 ==> p.syncInterval == vsync
    ensures !proxyTarget && -0x8000_0000 <= vsync < 0 ==> p.syncInterval == vsync + 0x1_0000_0000
    ensures p.allowTearing <==> vsync == 0 && chainAllowsTearing
  {
    var sync := if proxyTarget then 0 else vsync % 0x1_0000_0000;
    PresentPolicy(sync, sync == 0 && vsync == 0 && chainAllowsTearing)
  }
}

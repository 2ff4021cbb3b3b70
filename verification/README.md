# Capture Engine: frame-generation switching, setup container and installation

A Dafny 4.11 model of the parts of Capture Engine whose correctness depends on order, on failure paths and on exact
bytes, with proofs about every run and every input. `dafny verify dfyconfig.toml` checks the whole project.

## What is modelled

**The frame-generation switch test application (`testapp/`).** `SwitchApp.App` is a class with the application's
globals as fields and its functions as methods. Every vendor, DXGI or Present call is a question put to the current
`Frame`, whose answer is arbitrary, so a proof about all frames is a proof about all failures. Each call is also entered
in a log. `VendorLog` judges that log without looking at the application's fields, and its `...Meaning` lemmas say what
each bit of the judgement means in positions of the log. `SwitchRuns` states what holds of whole runs.

**The frame ring (`testapp/`).** `FenceRing.Ring` holds the fence values, the auto-reset event and the GPU queue; the
GPU may retire queued commands between any two of the CPU's observations. `FenceHistory` keeps the history the ring is
judged by, `FenceTimeline` the arithmetic of the values.

**The setup container (`installer/`, packed by `tools/installer_payload.py`).** `Crc32` and `Crc32Polynomial`
(checksum), `Utf8`, `SafePath`, `LittleEndian`, `PayloadIndex` (footer and index) and `Container` (block framing, the
reader, the packer). The compressor is abstract: its decompressor undoes it.

**Installing and uninstalling (`installer/`).** `FileTree` is a file system that may refuse any single operation and
remembers every state it was in. `InstallTransaction` stages, commits and rolls back on it. `InstallPaths`, `Manifest`,
`Uninstall` and `Ancestors` cover directories, the manifest, removal, and the processes an uninstall spares.
`CommandLine` is the quoting used to start a sibling process.

## What was found

1. *A Streamline swapchain's first image can have DLSS-G on.* If DLSS-G refuses to go off on the way to OFF, the option
   stays on for the replacement swapchain of the next DLSS request (`SwitchRuns.CoveredFails`). This is the only way:
   on every run the rule holds if and only if no first image comes while a refused Off still tells, that is, DLSS-G was
   on, refused an Off, and has accepted no option since (`SwitchRuns.RunSession`). `SwitchApp.App.Render` says which
   frame breaks it.
2. *An FSR proxy can be torn down without a quiet image.* If FSR refuses to be disabled on the way to OFF and DLSS is
   asked for next, the proxy goes while FSR is still on (`SwitchRuns.QuietFails`). On every run the rule holds if and
   only if no proxy that FSR refused a call since its creation is torn down dirty (`SwitchRuns.RunSession`), so a run in
   which FSR accepts every call keeps it. `SwitchApp.App.SwitchMode` gives the exact condition per call
   (`TearsDownDirty`), and `SwitchApp.App.TearsDownDirtyMeans` reads it off the calls made.
3. *FSR can be enabled under mode OFF.* A refused drain at the commit of an FSR exit to OFF leaves the stage behind; a
   later DLSS request whose preparation fails then "rolls back" to FSR although the mode is OFF
   (`SwitchRuns.CoherenceFails`). `SwitchMode` states that one call loses coherence in exactly that case; at the end of
   any run FSR is enabled under another mode if and only if the calls say so: FSR accepted an enable in another mode,
   and no mode was set nor proxy destroyed since (`SwitchRuns.RunSession`).
4. *Without Streamline's `CreateDXGIFactory1` export DLSS mode is never reached*, on any run
   (`SwitchApp.App.Play`); the export is not among the required ones.
5. *Dead branches.* The "proxy topology is unavailable" warning of the FSR exit, the refusal to break presentation, and
   the fallback of a failed switch to an enabled runtime are unreachable; a failed switch always ends in OFF, unless it
   rolls back. The asynchronous Streamline preload after entering FSR is always skipped, because FSR is initialised
   there (`testapp/dx12_fg_switch_render.cpp:82-96`).
6. *The switch application's fence wait can be woken by a stale event.* It may leave without consuming the event, or
   without withdrawing its registration, and it trusts a set event without reading the fence again.
   `FenceRing.Ring.PatientWait` says for every state of event and registrations when its value is reached and what it
   leaves behind. On any run, up to the first wait that fails, a wait reaches its value if and only if it does not begin
   with a set event and a value the GPU has not reached when the fence is next read (`FenceRing.RunRing`); if every wait
   does, the run obeys all the rules. `FenceRing.StaleEventRun` is a run in which a command allocator is reset under a
   queued command list. The wait of the audio/video test application never fails.
7. *Whether an accepted container stays accepted can hang on how `std::sort` orders equal offsets.* The packer gives an
   empty file the offset of the next one (`Container.EmptyFileDependsOnSort`). Every order accepts exactly the
   containers in which no empty entry shares its offset with a non-empty one (`PayloadIndex.EveryOrderMeans`), which for
   packed setups means that no non-empty file follows an empty one (`Container.SetupRoundTrip`).
8. *If the installation folder itself cannot be created*, folders made above it stay: nothing is rolled back
   (`installer/engine_install.cpp:221-224`).
9. *`NormalizeDirectory` is not idempotent* (`InstallPaths.NormalTwice`); `InstallPaths.NormalAgain` says when it is.

## Assumptions

- `FenceRing.RunRing` covers both frame rings: with `polling` it waits as `testapp/dx12_fg_switch_common.cpp:3-45` does,
  without it as `testapp/dx12_av_sync_test_util.cpp:295-316`. What the GPU does during a wait is a parameter; the
  recreation of the ring is the switch application's.
- `SwitchRuns.RunThenRequest` needs Streamline to export its DXGI factory and the same device and exports to come back
  throughout. Creating RTVs, allocators and buffers after a swapchain was created is assumed to succeed.
- `InstallTransaction.Install` needs `WellNamed` paths: none ends in `.cenew` or `.cebak`, and none is a folder of
  another. The container parser checks neither.
- `Container.SetupRoundTrip` limits paths to 240 bytes, as the parser does; the packer limits characters instead. That
  is the whole difference: the parser takes exactly the packer's paths of at most 240 bytes (`Container.PackerSplit`),
  and an index with a longer one is not the encoding of any entries it takes (`Container.OverlongIsRefused`).

## Model

| member | source | states |
|---|---|---|
| SwitchRuns.RunProgram | testapp/dx12_fg_switch_test.cpp:260-352 | on every run from start-up through clean-up, whatever fails: each DLSS-G enable falls on a live Streamline swapchain with a successful Present since its creation, no Reflex Off call falls in a Streamline swapchain's lifetime, and first images have DLSS-G off exactly unless a refused Off still tells |
| SwitchRuns.RunSession | testapp/dx12_fg_switch_test.cpp:260-344 | at the end of any session the mode tells the truth about DLSS, and about FSR exactly unless FSR was enabled in another mode with neither a mode set nor a proxy destroyed since, for which FSR must have refused something; a mode and a toggle request are never both pending; the last input has had its effect; tear-downs are quiet if and only if no proxy that FSR refused a call is torn down dirty; first images are covered if and only if no refused Off lingers at one; sync interval 0 on Streamline while no switch fails |
| SwitchRuns.RunThenRequest | testapp/dx12_fg_switch_render.cpp:462-478 | from any state a session reaches on a steady machine, any mode request is settled within three frames in which nothing fails |
| SwitchRuns.SuspendAndResume | testapp/dx12_fg_switch_render.cpp:479-488 | from any state a session reaches with FSR or DLSS active and no switch asked for: key, frame, key, frame suspends and then resumes, each by the one call to the vendor that says so |
| SwitchRuns.CoherenceFails | testapp/dx12_fg_switch_render_switch.cpp:111-131 | a run that ends with FSR enabled under mode OFF |
| SwitchRuns.QuietFails | testapp/dx12_fg_switch_render_switch.cpp:210-219 | a run in which an FSR proxy is destroyed with FSR still on |
| SwitchRuns.CoveredFails | testapp/dx12_fg_switch_render_switch.cpp:160-165 | a run in which a Streamline swapchain's first image has DLSS-G on |
| SwitchApp.App.SwitchMode | testapp/dx12_fg_switch_render_switch.cpp:4-341 | keeps the invariant on every path; exactly when it waits, stages an FSR exit, rolls back, stages a replacement, ends in the target or in OFF; exactly when it succeeds; when a proxy is torn down dirty and when coherence is lost, both if and only if |
| SwitchApp.App.TearsDownDirtyMeans | testapp/dx12_fg_switch_render_switch.cpp:204-212 | the dirty tear-down read off the calls: FSR enabled on the live proxy and no image with FSR off since; FSR has refused a call since the proxy was created, and if FSR counts as disabled, a refused Off still tells or an accepted one was never shown |
| SwitchApp.App.ResumeReplacement | testapp/dx12_fg_switch_render_switch.cpp:13-42 | a replacement waits exactly while its Streamline swapchain is unshown; otherwise the stage is cleared; the FSR runtime stays to be retired exactly unless the replacement is gone or FSR is wanted again |
| SwitchApp.App.LeaveFsr | testapp/dx12_fg_switch_render_switch.cpp:46-159 | exactly when leaving FSR ends the call, with which result and stage, and that only a rollback dirties the proxy; the unavailable-proxy branch is unreachable |
| SwitchApp.App.CommitFsrBreak | testapp/dx12_fg_switch_render_switch.cpp:101-151 | for a DLSS target the passthrough is given up only with Streamline ready; rolls back exactly when it cannot be prepared; the refusal branch is unreachable |
| SwitchApp.App.RollBackToFsr | testapp/dx12_fg_switch_render_switch.cpp:112-131 | FSR resumes on the untouched proxy if it accepts, the request is dropped and the invariant's core kept |
| SwitchApp.App.DisableFsr | testapp/dx12_fg_switch_render_switch.cpp:72-100 | a live proxy that accepted the Off is kept for one image, anything else is drained at once |
| SwitchApp.App.LeaveDlss | testapp/dx12_fg_switch_render_switch.cpp:160-170 | DLSS ends disabled even when the Off is refused, and then the option stays on at the vendor |
| SwitchApp.App.EnterFsr | testapp/dx12_fg_switch_render_switch.cpp:172-202 | succeeds exactly when load, renderer, context and enable are there or granted; enabled if and only if it succeeds |
| SwitchApp.App.EnterDlss | testapp/dx12_fg_switch_render_switch.cpp:203-262 | never activates on a fresh swapchain: a replaced surface ends the call unshown and waiting; succeeds exactly when preparation and replacement or activation do |
| SwitchApp.App.StageReplacement | testapp/dx12_fg_switch_render_switch.cpp:210-241 | the FSR surface goes only with Streamline ready, and the new swapchain waits for its first Present |
| SwitchApp.App.EnterOff | testapp/dx12_fg_switch_render_switch.cpp:263-300 | a complete FSR proxy stays and nothing is called; otherwise OFF ends on a native swapchain or fails exactly as granted |
| SwitchApp.App.Settle | testapp/dx12_fg_switch_render_switch.cpp:302-340 | a finished switch leaves the target or OFF, the program running exactly if a swapchain is there, and no request |
| SwitchApp.App.AbandonSwitch | testapp/dx12_fg_switch_render_switch.cpp:302-326 | a failed switch always falls back to OFF |
| SwitchApp.App.Render | testapp/dx12_fg_switch_render.cpp:416-684 | keeps the invariant; the mode it ends in, and its last calls, exactly; a frame that serves no switch makes exactly the calls of the pending toggle or of the stress clocks and then the image, and leaves exactly the flags and requests they leave; with nothing failing a request is settled or strictly nearer by the ranking; a first image becomes uncovered exactly when it is the replacement's and a refused Off lingers |
| SwitchApp.App.ServeToggle | testapp/dx12_fg_switch_render.cpp:479-488 | an armed frame with a toggle pending asks the vendor for it and for nothing else before the image; the flags end as the answer leaves them, the toggle is gone and no stress clock fires |
| SwitchApp.App.FinishFrame | testapp/dx12_fg_switch_render.cpp:479-684 | what the rest of a frame calls, in order, and which flags, requests and stage it leaves, for every answer |
| SwitchApp.App.ServeSwitch | testapp/dx12_fg_switch_render.cpp:462-478 | a switch is served exactly if armed and asked for by a key or the clock; the mode and the request it ends with; an unserved frame changes nothing here |
| SwitchApp.App.CompleteRequest | testapp/dx12_fg_switch_render.cpp:462-478 | any attainable pending request is settled after at most three granted frames |
| SwitchApp.App.AdvanceStage | testapp/dx12_fg_switch_render.cpp:617-657 | only a successful Present advances a stage, by exactly one, and the invariant and the sync rule hold of it |
| SwitchApp.App.PresentFrame | testapp/dx12_fg_switch_render.cpp:617-678 | exactly one Present, with the interval of the policy; the FSR runtime is retired exactly behind a shown, active DLSS image that it was waiting for; a removed device stops the loop |
| SwitchApp.App.SyncMeans | testapp/dx12_fg_switch_input.cpp:28-34 | DLSS mode and a staged replacement present with interval 0, every other frame with the configured one |
| SwitchApp.App.ToggleSuspension | testapp/dx12_fg_switch_render.cpp:215-281 | a toggle for another mode changes nothing; otherwise exactly the calls made and the suspended and enabled flags the accepted or refused call leaves, and every DLSS-G enable is on a shown Streamline swapchain |
| SwitchApp.App.DlssSuspensionStress | testapp/dx12_fg_switch_render.cpp:308-342 | exactly when the stress suspends, when it asks for OFF, and that it otherwise changes nothing; what it has done is remembered, and done once |
| SwitchApp.App.FsrSuspensionStress | testapp/dx12_fg_switch_input.cpp:191-216 | toggles and reconfigures exactly when configured, automatic, in enabled FSR mode and due |
| SwitchApp.App.RunAutoSequence | testapp/dx12_fg_switch_render.cpp:283-297 | asks for FSR, DLSS and FSR, each once and in this order, until a key takes over |
| SwitchApp.App.RequestMode | testapp/dx12_fg_switch_input.cpp:47-58 | a mode request supersedes a pending toggle and keeps the invariant |
| SwitchApp.App.RequestModeOrToggle | testapp/dx12_fg_switch_input.cpp:72-78 | exactly when a key toggles rather than asks for a mode, and never both |
| SwitchApp.App.Step | testapp/dx12_fg_switch_input.cpp:218-240 | every input keeps the invariant and has its effect: a key for the current mode asks for its toggle, any other for its mode, the next frame makes the toggle's calls and leaves its flags, and the mode after a frame is exact |
| SwitchApp.App.Play | testapp/dx12_fg_switch_test.cpp:335-344 | any sequence of inputs keeps the invariant; without the Streamline factory DLSS mode is never reached |
| SwitchApp.App.Startup | testapp/dx12_fg_switch_test.cpp:260-328 | the loop starts exactly if the renderer could be made, in OFF with nothing enabled and the invariant true; exactly which runtimes are loaded and prepared, and the calls that leave them disabled |
| SwitchApp.App.Cleanup | testapp/dx12_fg_switch_render.cpp:686-732 | everything is gone; exactly the calls made, DLSS-G and FSR told to stop before their swapchain goes and Reflex dropped after it, so that the unconditional rules stay kept |
| SwitchApp.App.EnsureStreamlineReady | testapp/dx12_fg_switch_render.cpp:191-213 | succeeds exactly when runtime, device and features are there or granted; never drops Reflex under a Streamline swapchain |
| SwitchApp.App.ReinitializeDx12 | testapp/dx12_fg_switch_render.cpp:174-189 | Reflex goes off only between the old swapchain and the new, and which surface results |
| SwitchApp.App.CreateSwapChain | testapp/dx12_fg_switch_swapchain.cpp:171-221 | owner and Streamline flag are set exactly by a successful creation |
| SwitchApp.App.RecreateSwapChain | testapp/dx12_fg_switch_swapchain.cpp:292-306 | after a failure no swapchain is left; the rules so far stay kept |
| SwitchApp.App.InitDx12 | testapp/dx12_fg_switch_swapchain.cpp:308-348 | device, binding, swapchain and owner for every combination of failures |
| SwitchApp.App.BindStreamlineDevice | testapp/dx12_fg_switch_streamline.cpp:114-144 | Streamline stays with its first device; a later one only compares |
| SwitchApp.App.ApplyReflexMode | testapp/dx12_fg_switch_streamline.cpp:96-112 | called only on a change; harmless whenever it is On or no Streamline swapchain is alive |
| SwitchApp.App.SetDlssMode | testapp/dx12_fg_switch_streamline.cpp:197-239 | an accepted enable takes Reflex along; a disable never touches it |
| SwitchApp.App.TryInitDlss | testapp/dx12_fg_switch_streamline.cpp:146-195 | succeeds exactly when the runtime is loaded, takes the device now or before, and resolves its functions; Reflex is dropped exactly if it was low, and nothing else is called |
| SwitchApp.App.ShutdownStreamline | testapp/dx12_fg_switch_streamline.cpp:424-469 | nothing of Streamline is left, and exactly what was called: DLSS-G disabled if it was enabled, and Reflex off with no swapchain alive |
| SwitchApp.App.ConfigureFsr | testapp/dx12_fg_switch_fsr.cpp:150-207 | without runtime or context nothing is called; otherwise what the vendor then has in force |
| SwitchApp.App.DestroyFsrContexts | testapp/dx12_fg_switch_fsr.cpp:435-456 | both contexts and the stage are gone after exactly the calls that quiet and destroy them, and the tear-down is dirty exactly if no quiet image was shown |
| SwitchApp.App.TryInitFsr | testapp/dx12_fg_switch_fsr.cpp:338-378 | a new context starts disabled |
| SwitchApp.App.MaybeUnloadFsrRuntime | testapp/dx12_fg_switch_fsr.cpp:89-102 | the runtime is unloaded only with no context alive |
| FgPolicy.ResolvePresentPolicy | testapp/fg_present_policy.h:21-26 | a proxy target presents uncapped, any other at the configured interval as 32 unsigned bits; tearing is allowed exactly where vsync is configured off and the swapchain allows it |
| FgPolicy.ExitMeans | testapp/fg_switch_transition.h:22-34 | an active FSR is disabled and shown once before every exit, a pending passthrough is shown first, and nothing else delays a switch |
| FgPolicy.BreakMeans | testapp/fg_switch_transition.h:36-48 | once the passthrough is shown, and only then, either DLSS must be prepared or FSR may be left, never both |
| FenceRing.RunRing | testapp/dx12_fg_switch_common.cpp:3-104 | in any interleaving with the GPU, across drains, repeated buffers and recreations, up to the first wait that fails: no allocator reset under a queued list, growing signals, waits only for signalled values, no timestamp slot rewritten before its harvest, each submission harvested at most once after its fence and with its own contents; a wait reaches its value if and only if it does not begin with a set event and a value out of reach, which without polling it never does; if all do, the run is complete and every frame is in the history |
| FenceRing.Ring.WaitFor | testapp/dx12_av_sync_test_util.cpp:300-303 | the wait ends, with the value reached and the event consumed, and at once if it was reached before |
| FenceRing.Ring.Await | testapp/dx12_fg_switch_common.cpp:3-45 | a wait that begins with nothing registered reaches its value if and only if the event is clear or the GPU gets there before the fence is next read; it then leaves nothing registered |
| FenceRing.Ring.PatientWait | testapp/dx12_fg_switch_common.cpp:3-45 | whatever the event and the registrations were: it reaches its value exactly unless it is woken after being misled, by a set event or a lower value still registered with its own value out of reach; a set event out of reach does wake it; which registrations stay and whether the event is left set |
| FenceRing.StaleEventRun | testapp/dx12_fg_switch_common.cpp:3-45 | a run of that wait that breaks the rules |
| FenceRing.Ring.MoveToNextFrame | testapp/dx12_fg_switch_common.cpp:87-104 | the current value is signalled and the reported buffer, clamped, becomes current; it is free exactly if the wait did not begin with a stale event |
| FenceRing.Ring.WaitForGpu | testapp/dx12_fg_switch_common.cpp:76-85 | afterwards nothing is queued, exactly unless the wait began with a stale event |
| FenceRing.Ring.RecreateSwapChain | testapp/dx12_fg_switch_swapchain.cpp:292-306 | all values restart at the next one; the timeline is then valid whatever buffer is current, unless the wait began with a stale event |
| FenceRing.Ring.SubmitFrame | testapp/dx12_fg_switch_render.cpp:554-614 | resetting the allocator and rewriting the timestamp slot are allowed by the history, and at most the last four submissions stay unharvested |
| FenceRing.Ring.Harvest | testapp/dx12_fg_gpu_timer.h:154-178 | exactly the slots whose fence was reached are read, each with its own submission's contents, and freed |
| FenceRing.GpuFrameTimer.Advance | testapp/dx12_fg_gpu_timer.h:110-119 | the slot is fenced with the next value and the ring moves on |
| FenceTimeline.AllocatorIsFree | testapp/dx12_av_sync_test_util.cpp:300-305 | once a buffer's value is reached nothing queued uses its allocator |
| FenceTimeline.FewInFlight | testapp/dx12_fg_gpu_timer.h:107-121 | at most one submission per buffer is outstanding |
| FenceHistory.RecordAllowed | testapp/dx12_fg_gpu_timer.h:89-105 | with 16 slots and four buffers the next slot's earlier submission is finished and harvested |
| FenceHistory.ResetAllowed | testapp/dx12_fg_switch_render.cpp:554-555 | every list recorded with the current buffer's allocator has finished |
| InstallTransaction.Install | installer/engine_install.cpp:217-305 | at every moment since the call, whatever is refused, each old file of a shipped path is intact at its destination or backup, and what is neither shipped nor a leftover stays as it was; a clean-up that is refused nothing leaves no found `.cenew` or `.cebak` file beside a destination; a rollback that is refused nothing restores files and folders exactly; a commit puts every entry in place; it gives up on a folder exactly if its creation is refused; it stops only for something in the way or after a refusal |
| InstallTransaction.Transaction.Rollback | installer/engine_install.cpp:39-60 | never loses an old file; with nothing refused, everything is as it was |
| InstallTransaction.Transaction.CreateDirectoryTracked | installer/engine_install.cpp:72-87 | every folder made is noted in order, only missing folders above the path are made, and it fails exactly if one of their creations is refused |
| InstallTransaction.Transaction.StageOne | installer/engine_install.cpp:246-282 | only staging names and folders change; succeeds when nothing is in the way or refused |
| InstallTransaction.Transaction.CommitOne | installer/engine_install.cpp:286-305 | either one more file is in place or everything can still be undone |
| InstallTransaction.Transaction.CleanTemporaryFiles | installer/files.cpp:228-253 | at every moment only files named `.cenew` or `.cebak` after something are gone and every other file has its content; with nothing refused all those found are gone |
| InstallTransaction.LeftoverMeans | installer/install_policy.h:394-405 | a leftover is a file whose name is a non-empty name followed by `.cenew` or `.cebak`, in these letters |
| InstallTransaction.UndoneMeans | installer/engine_install.cpp:34-60 | an undone transaction leaves every path as it was, and the whole tree identical when no leftovers were there |
| InstallTransaction.PlannedApart | installer/engine_install.cpp:228-242 | for well-named paths no staging, backup and destination names collide |
| Crc32Polynomial.CrcIsTheRemainder | installer/payload_format.h:104-125 | the checksum is the one word whose complement is the remainder of the standard polynomial division (clause 3.2.9 of IEEE 802.3), for every message |
| Crc32Polynomial.RemainderUnique | installer/payload_format.h:104-125 | division by the generator has one remainder |
| Crc32.RunIsFeed | installer/payload_format.h:105-125 | the table-driven loop is the bit-serial register |
| Crc32.UpdateConcat | installer/payload.cpp:166-166 | chunked updates equal one update over the concatenation |
| Crc32.BurstDetected | installer/payload_format.h:118-125 | equal-length messages that differ only within 32 consecutive bits never share a checksum |
| Crc32.Crc32Update | installer/payload_format.h:118-125 | the loop over the table computes that checksum |
| Crc32.MakeCrcTable | installer/payload_format.h:105-114 | each of the 256 entries is eight register shifts of its index |
| Utf8.IsValidUtf8 | installer/payload_format.h:158-191 | true exactly of the encodings of sequences of Unicode scalar values (sections 3 and 4 of RFC 3629) |
| Utf8.DecodeFirst | installer/payload_format.h:160-189 | the loop body decodes exactly the first character or refuses |
| SafePath.IsSafeRelativePath | installer/payload_format.h:217-243 | true exactly of non-empty UTF-8 paths of at most 240 bytes all of whose components are safe names |
| SafePath.SafeComponentMeans | installer/payload_format.h:220-240 | a safe name in literal terms: which characters, which ends, which names and which device names are refused |
| SafePath.ReservedMeans | installer/payload_format.h:204-215 | reserved are exactly the names that agree with one of the 22 device names up to ASCII case before their first dot |
| SafePath.LowerMeans | installer/payload_format.h:193-202 | lower-casing maps A to Z to a to z and nothing else |
| SafePath.ComponentsJoin | installer/payload_format.h:220-241 | the components joined by slashes are the path, and none holds a slash |
| LittleEndian.ReadOfWrite | installer/payload_format.h:131-152 | what was written anywhere in a buffer is read back |
| LittleEndian.WriteOfRead | installer/payload_format.h:131-152 | and what was read writes the same bytes |
| LittleEndian.WriteLeAt | installer/payload_format.h:140-152 | byte i written is the number divided by 256 to the i, modulo 256 |
| PayloadIndex.FooterRoundTrip | installer/payload_format.h:272-302 | a written footer is accepted and read back exactly when its bounds fit the file |
| PayloadIndex.ParseFooterMeans | installer/payload_format.h:272-302 | 64 bytes are accepted as a footer exactly if they are its encoding, checksum included, and its bounds fit the file |
| PayloadIndex.ForeignComplaints | installer/payload_format.h:276-283 | any 64 bytes: a wrong magic, then a wrong version, then a wrong checksum is reported, each exactly when it is so |
| PayloadIndex.FooterComplaints | installer/payload_format.h:284-300 | which bound of an encoded footer is reported first |
| PayloadIndex.FooterPieces | installer/payload_format.h:272-290 | where each field of an encoded footer stands |
| PayloadIndex.AcceptedFooter | installer/payload_format.h:275-302 | an accepted footer's ranges lie in the file and no subtraction wrapped |
| PayloadIndex.ParseIndex | installer/payload_format.h:306-378 | accepts exactly the bytes that encode entries with safe, pairwise distinct names and pairwise disjoint ranges inside the payload area, up to the sort's ties; and which complaint comes first |
| PayloadIndex.ParseSound | installer/payload_format.h:304-353 | what the loop accepts is the encoding of what it returns, every read inside the buffer |
| PayloadIndex.ParseComplete | installer/payload_format.h:304-353 | every encoding of acceptable entries is accepted and gives them back |
| PayloadIndex.CheckEntryMeans | installer/payload_format.h:332-347 | the wrapping 64-bit checks say what they would on unbounded numbers |
| PayloadIndex.EntryOkMeans | installer/payload_format.h:332-347 | the conditions on an entry in literal terms: its path, at most 8 GiB, its range in the payload area, and a stored size that its storage and number of MiB blocks allow |
| PayloadIndex.NeighboursSuffice | installer/payload_format.h:355-362 | comparing neighbours of the sorted names decides whether any two agree |
| PayloadIndex.ChainMeans | installer/payload_format.h:364-375 | comparing neighbours passes exactly when all ranges are pairwise disjoint and ties have the empty entry first |
| PayloadIndex.EveryOrderMeans | installer/payload_format.h:364-375 | every order a sort may choose passes if and only if the ranges are pairwise disjoint and no empty entry shares its offset with a non-empty one |
| PayloadIndex.TieDecides | installer/payload_format.h:369-375 | two entries that pass in one order and fail in the other |
| PayloadIndex.RangesFit | installer/payload_format.h:371-375 | the sums of the comparison do not wrap |
| Container.PayloadReader.DecodeFile | installer/payload.cpp:113-176 | succeeds exactly when the range holds content of the entry's size and checksum and nothing is refused; then that content was delivered and exactly the range was read; why it fails otherwise; it never reads more than a block header past the range |
| Container.PayloadReader.ReadFrame | installer/payload.cpp:142-164 | one block is delivered exactly when the range continues with a well-formed one |
| Container.PayloadReader.ReadExact | installer/payload.cpp:60-71 | all the bytes asked for or none |
| Container.PayloadReader.Open | installer/payload.cpp:75-102 | succeeds only with, and when nothing is refused always with, a signed footer in bounds and an index that list the entries returned; a short file, a refusal and a bad footer are each reported as such |
| Container.FileRoundTrip | tools/installer_payload.py:198-212 | for every compressor its decompressor undoes, a packed file decodes to itself, in the size range the index check allows |
| Container.StoredSmallest | tools/installer_payload.py:198-212 | neither a block nor a file takes more room than any way of storing it |
| Container.RawsDescribe | tools/installer_payload.py:247-252 | entries describe their files, follow each other and add up |
| Container.SetupRoundTrip | tools/installer_payload.py:282-291 | every packed setup's entries decode to their files; the index is accepted by a sort exactly if it puts empty entries first among equals; by every sort if and only if no non-empty file follows an empty one |
| Container.PackerSplit | tools/installer_payload.py:54-70 | a path is safe for the parser if and only if the packer accepts it and it has at most 240 bytes |
| Container.OverlongIsRefused | installer/payload_format.h:316-322 | an index holding a longer path is not the encoding of entries with shorter ones, so the parser refuses it |
| Container.ReadSetup | installer/payload.cpp:75-176 | opening and decoding a packed setup returns all files in order; with nothing refused and empty files last it always does |
| Container.SharingMeans | tools/installer_payload.py:247-252 | an empty file shares its offset with a non-empty one exactly if a non-empty file follows |
| Container.EmptyFileDependsOnSort | tools/installer_payload.py:249-251 | a two-file setup that one order accepts and the other refuses |
| InstallPaths.NormalizeDirectory | installer/install_policy.h:245-272 | the loops compute the trimmed, unquoted, collapsed path |
| InstallPaths.NormalTrims | installer/install_policy.h:245-256 | blanks at the ends go, then one pair of quotes |
| InstallPaths.SqueezedRules | installer/install_policy.h:257-271 | slashes count as backslashes, a repeated or final one goes except at the start, and nothing else changes |
| InstallPaths.NormalAgain | installer/install_policy.h:245-272 | normalising again changes nothing if and only if the result has no blank at an end and is not in quotes |
| InstallPaths.NormalTwice | installer/install_policy.h:252-255 | an input on which it does change something |
| InstallPaths.TidyIsNormal | installer/install_policy.h:245-323 | an accepted directory is a fixed point |
| InstallPaths.ValidateInstallDirectory | installer/install_policy.h:284-323 | accepts exactly tidy absolute paths on a drive of at most 200 units that do not continue the Windows folder's components up to ASCII case, and which complaint comes first |
| InstallPaths.StartRules | installer/install_policy.h:286-300 | which complaint a path's beginning draws, in literal terms |
| InstallPaths.RefusedMeans | installer/install_policy.h:301-319 | which characters and which components are refused |
| InstallPaths.InsideMeans | installer/install_policy.h:274-282 | a path lies inside a folder exactly if the folder's components come first among its own, up to ASCII case |
| InstallPaths.JoinPath | installer/util.cpp:156-163 | parent, one separator, child with backslashes |
| InstallPaths.JoinConfined | installer/util.cpp:156-163 | a safe path joined to an accepted directory is normal, strictly inside it, and keeps both lists of components |
| InstallPaths.JoinInjective | installer/util.cpp:156-163 | two joined paths agree up to ASCII case exactly when the payload paths do |
| Manifest.ManifestRoundTrip | installer/install_policy.h:412-457 | parsing a serialised manifest returns its version and files |
| Manifest.SerializeManifest | installer/install_policy.h:412-417 | the loop writes that text |
| Manifest.SerializeMeans | installer/install_policy.h:412-417 | the text is the header line, the version line and one line for each file |
| Manifest.ParseManifest | installer/install_policy.h:425-457 | for every text and every way to see it as lines, the result is what the lines mean: valid exactly if the first is CEINSTALL1; every path in it is a safe relative one |
| Manifest.ParseMeans | installer/install_policy.h:425-457 | a text of lines, with or without returns, means its header, its last version and its safe files in order |
| Manifest.EveryText | installer/install_policy.h:430-436 | every text is such lines |
| Manifest.ReadsOnlySafe | installer/install_policy.h:445-455 | from any line on, reading adds only safe relative paths, whatever the text |
| Uninstall.UninstallFiles | installer/engine_uninstall.cpp:173-175 | whatever is refused, `config.ini` and everything in `logs`, `captures`, `screenshots` and `benchmarks` stays, only listed files are gone or under another name, and only listed non-user folders go; with nothing refused exactly the other listed files go, then exactly the listed folders with nothing else below them |
| Uninstall.RemoveManifestFiles | installer/files.cpp:192-217 | whatever is refused, nothing changes but listed non-user files and names beside them that they may be moved to; with nothing refused exactly the listed ones go |
| Uninstall.RemoveOrRenameAway | installer/files.cpp:160-190 | a file ends deleted, moved to a name beside it with its content, or in place; it is moved exactly if deleting it is refused, a name is free and the move is granted; the answer says whether its name is free |
| Uninstall.UserDataStays | installer/files.cpp:195-197 | neither listed non-user files nor the names they may be moved to are user data |
| Uninstall.UserDataMeans | installer/install_policy.h:374-387 | user data is exactly `config.ini` and what lies in the four data folders |
| Uninstall.RemoveEmptyDirectories | installer/files.cpp:219-226 | one deepest-first pass takes every folder that can become empty; whatever is refused, only listed non-user folders go |
| Uninstall.ParentDirectoriesMeans | installer/install_policy.h:474-486 | the directories are exactly the proper folders of listed files |
| Ancestors.OpenWaitingInstallers | installer/main.cpp:172-236 | which processes are spared, for every parent map, every claimed parent and every launcher text: the parent, the older processes of the same image above it, and a running launcher; none twice |
| Ancestors.DecimalInjective | installer/main.cpp:207-212 | different process ids have different decimal texts, so a text names at most one process |
| Ancestors.ChainMeans | installer/main.cpp:190-203 | every process of the walk has the image of the first, is the parent of the one before it and was created before it, so no process repeats even in a cyclic map |
| Ancestors.ChainIsMaximal | installer/main.cpp:191-196 | the walk stops only where the next process is unknown, not running, of another image or not older |
| Ancestors.Walk | installer/main.cpp:190-203 | the loop follows that chain and ends |
| CommandLine.SplitUndoesQuoting | testapp/testapp_common.h:221-288 | splitting the joined quoted arguments by the Microsoft rules returns every list of arguments |
| CommandLine.SplitProgramUndoesQuoting | testapp/testapp_common.h:221-288 | under the rule for program names the joined quoted arguments are returned if and only if the first one survives |
| CommandLine.QuoteCommandLineArg | testapp/testapp_common.h:221-262 | the loop with its running count writes that quoting |
| CommandLine.QuotedWhenNeeded | testapp/testapp_common.h:222-228 | an argument is left as it is exactly if it is not empty and holds no blank, tab or quote |
| CommandLine.BuildCommandLine | testapp/testapp_common.h:284-288 | the command line splits back into the arguments it was built from; under the separate rule for the program name exactly if the first argument has no quote and, when quoted, does not end in a backslash |

## Left out

- D3D12, DXGI, Streamline, FFX and Win32 themselves: only the outcome of each call and its effect on the fields.
- Device-removal dumps, and device removal seen anywhere but at Present: they log or stop the loop.
- The FSR runtime preload thread: its result arrives as an input between two frames. The Streamline preload thread never
  starts (finding 5).
- The start-up stress loop of native swapchains, the auto-exit clock (it acts as Escape does), and the callback,
  video-memory and present-callback stresses.
- Failures to create RTVs, allocators or buffers after a swapchain exists, and failures of the timer's Signal and Map.
- Wrap-around of the 64-bit fence counters.
- Rendering, upscaling, TAA, HUD, jitter and every floating-point policy.
- SwitchRuns.RunProgram: quiet tear-downs are claimed for the session only, because the clean-up at exit destroys a live
  FSR proxy without another image.
- SwitchApp.App.ResumeReplacement: the fence waits inside the switch are not part of this class; the ring has its own.
- Container.PayloadReader.DecodeFile: the decompressor is an abstract partial function; LZMS itself is not modelled.
- InstallTransaction.Transaction.CleanTemporaryFiles: a leftover in use is kept or deleted, never renamed aside.
- Uninstall.RemoveOrRenameAway: the deletion of a file moved aside at the next restart, file attributes, and folders
  that are links.
- InstallTransaction.Install: preflight checks, the configuration file, the manifest's writing, registration and
  reparse-point checks are not part of it; a path guard is one refusal.
- InstallPaths.JoinConfined: paths are sequences of code units; the widening from UTF-8 to UTF-16 is not modelled, and
  case is folded for ASCII only.
- Ancestors.OpenWaitingInstallers: image names are already folded.
- Manifest.ManifestRoundTrip: the version has no line feed and does not end in a carriage return, as the format needs.
- Uninstall.UninstallFiles: the leftovers, and on request the settings and logs, that an uninstall removes afterwards.
- Power loss across two installer runs and other writers at the same time.
- The elevation service, the user interface, shortcuts, registry, driver set-up and ACLs.

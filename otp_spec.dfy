/**
 * The one-time-pad protocol of otp.c as functions of the filesystem state:
 * which files the check opens, what the comparison decides, what rotation
 * leaves behind, and the outcome of a whole check. The lemmas state the
 * protocol's guarantees about these functions.
 */
module OtpSpec {
  import opened Optional
  import opened Config
  import opened Paths
  import opened Volumes
  import opened FileStore

  /** The device pad of a volume; None when HAL reports no mount point. */
  function DeviceFile(opts: Options, volume: Volume): Option<string>
  {
    match volume.mountPoint
    case None => None
    case Some(mnt) => Some(DevicePath(mnt, opts.deviceOtpDirectory, opts.hostname))
  }

  /** The system pad of the device. */
  function SystemFile(opts: Options): string
  {
    SystemPath(opts.systemOtpDirectory, opts.serial)
  }

  /** The handle an open of an optional path yields (no path: no handle). */
  function OpenResult(files: Files, readOnly: set<string>, path: Option<string>, mode: Mode): Option<Handle>
  {
    if path.Some? && Opens(files, readOnly, path.value, mode) then Some(Handle(path.value, mode)) else None
  }

  /** The files after an open of an optional path (no path: nothing happens). */
  function FilesAfterOpen(files: Files, readOnly: set<string>, path: Option<string>, mode: Mode): Files
  {
    if path.Some? then AfterOpen(files, readOnly, path.value, mode) else files
  }

  /** A volume without a mount point gives no device handle and touches no file. */
  lemma DeviceOpenWithoutMountPoint(files: Files, readOnly: set<string>, opts: Options, volume: Volume,
                                    mode: Mode)
    requires volume.mountPoint.None?
    ensures OpenResult(files, readOnly, DeviceFile(opts, volume), mode) == None
    ensures FilesAfterOpen(files, readOnly, DeviceFile(opts, volume), mode) == files
  {
  }

  /** The pad drawn by the rotation: the first PadWords values of `rand()`. */
  function PadFrom(rand: nat -> Word): (pad: seq<Word>)
    ensures |pad| == PadWords
  {
    seq(PadWords, (i: int) requires 0 <= i => rand(i))
  }

  /**
   * `pusb_otp_compare`: pass when there is no system pad, deny when the
   * device pad cannot be opened, otherwise compare the two read buffers.
   */
  function CompareResult(files: Files, opts: Options, volume: Volume,
                         uninitDevice: seq<Word>, uninitSystem: seq<Word>): bool
    requires |uninitDevice| == PadWords && |uninitSystem| == PadWords
  {
    var sp := SystemFile(opts);
    if sp !in files then true
    else match DeviceFile(opts, volume)
      case None => false
      case Some(dp) =>
        if dp !in files then false
        else ReadBuffer(files[sp], uninitSystem) == ReadBuffer(files[dp], uninitDevice)
  }

  /**
   * `pusb_otp_update`: open the device pad with "w+" (truncating it), then
   * the system pad with "w+", then write the pad to the system file and to
   * the device file; stop after a failed open.
   */
  function UpdatedFiles(files: Files, readOnly: set<string>, opts: Options, volume: Volume,
                        pad: seq<Word>): Files
  {
    match DeviceFile(opts, volume)
    case None => files
    case Some(dp) =>
      if !Opens(files, readOnly, dp, WritePlus) then files
      else
        var truncated := files[dp := []];
        var sp := SystemFile(opts);
        if !Opens(truncated, readOnly, sp, WritePlus) then truncated
        else
          var created := truncated[sp := []];
          var systemWritten := created[sp := WriteAtStart(created[sp], pad)];
          systemWritten[dp := WriteAtStart(systemWritten[dp], pad)]
  }

  /** What a check decides, the files it leaves, and how often it asked the resolver. */
  datatype Outcome = Outcome(granted: bool, files: Files, probes: nat)

  /** `pusb_otp_check`: poll, apply the enforce policy, compare, rotate on a match. */
  function CheckOutcome(files: Files, readOnly: set<string>, opts: Options, resolve: Resolver,
                        uninitDevice: seq<Word>, uninitSystem: seq<Word>, pad: seq<Word>): Outcome
    requires TimeoutFits(opts.probeTimeout)
    requires |uninitDevice| == PadWords && |uninitSystem| == PadWords
  {
    var poll := Poll(resolve, MaxTries(opts.probeTimeout));
    match poll.volume
    case None => Outcome(!opts.enforceOtp, files, poll.calls)
    case Some(v) =>
      if CompareResult(files, opts, v, uninitDevice, uninitSystem)
      then Outcome(true, UpdatedFiles(files, readOnly, opts, v, pad), poll.calls)
      else Outcome(false, files, poll.calls)
  }

  // ---------------------------------------------------------------------
  // Comparison

  /** A missing system pad passes. */
  lemma CompareWithoutSystemPad(files: Files, opts: Options, volume: Volume,
                                uninitDevice: seq<Word>, uninitSystem: seq<Word>)
    requires |uninitDevice| == PadWords && |uninitSystem| == PadWords
    requires SystemFile(opts) !in files
    ensures CompareResult(files, opts, volume, uninitDevice, uninitSystem)
  {
  }

  /** A present system pad with a device pad that cannot be opened fails. */
  lemma CompareWithoutDevicePad(files: Files, opts: Options, volume: Volume,
                                uninitDevice: seq<Word>, uninitSystem: seq<Word>)
    requires |uninitDevice| == PadWords && |uninitSystem| == PadWords
    requires SystemFile(opts) in files
    requires DeviceFile(opts, volume).None? || DeviceFile(opts, volume).value !in files
    ensures !CompareResult(files, opts, volume, uninitDevice, uninitSystem)
  {
  }

  /**
   * With both pads present and at least PadWords long, the comparison does
   * not depend on uninitialised memory: it holds exactly when their first
   * PadWords words agree.
   */
  lemma CompareFullPads(files: Files, opts: Options, volume: Volume,
                        uninitDevice: seq<Word>, uninitSystem: seq<Word>)
    requires |uninitDevice| == PadWords && |uninitSystem| == PadWords
    requires DeviceFile(opts, volume).Some?
    requires var dp, sp := DeviceFile(opts, volume).value, SystemFile(opts);
      dp in files && sp in files && |files[dp]| >= PadWords && |files[sp]| >= PadWords
    ensures var dp, sp := DeviceFile(opts, volume).value, SystemFile(opts);
      (CompareResult(files, opts, volume, uninitDevice, uninitSystem)
       <==> files[sp][..PadWords] == files[dp][..PadWords])
  {
  }

  /** Pads of exactly PadWords words match exactly when they are equal. */
  lemma CompareExactPads(files: Files, opts: Options, volume: Volume,
                         uninitDevice: seq<Word>, uninitSystem: seq<Word>)
    requires |uninitDevice| == PadWords && |uninitSystem| == PadWords
    requires DeviceFile(opts, volume).Some?
    requires var dp, sp := DeviceFile(opts, volume).value, SystemFile(opts);
      dp in files && sp in files && |files[dp]| == PadWords && |files[sp]| == PadWords
    ensures var dp, sp := DeviceFile(opts, volume).value, SystemFile(opts);
      CompareResult(files, opts, volume, uninitDevice, uninitSystem) <==> files[sp] == files[dp]
  {
  }

  // ---------------------------------------------------------------------
  // Rotation

  /** Rotation without a device pad to open leaves every file as it was. */
  lemma RotationWithoutDevicePad(files: Files, readOnly: set<string>, opts: Options, volume: Volume,
                                 pad: seq<Word>)
    requires DeviceFile(opts, volume).None? || DeviceFile(opts, volume).value in readOnly
    ensures UpdatedFiles(files, readOnly, opts, volume, pad) == files
  {
  }

  /**
   * Rotation whose system pad cannot be opened writes nothing, but the
   * device pad has already been truncated by its "w+" open.
   */
  lemma RotationWithoutSystemPad(files: Files, readOnly: set<string>, opts: Options, volume: Volume,
                                 pad: seq<Word>)
    requires DeviceFile(opts, volume).Some? && DeviceFile(opts, volume).value !in readOnly
    requires SystemFile(opts) in readOnly
    ensures UpdatedFiles(files, readOnly, opts, volume, pad) == files[DeviceFile(opts, volume).value := []]
  {
  }

  /**
   * A rotation that opens both pads leaves both holding the new pad and
   * every other file unchanged, also when the two paths are the same file.
   */
  lemma RotationWritesBoth(files: Files, readOnly: set<string>, opts: Options, volume: Volume,
                           pad: seq<Word>)
    requires |pad| == PadWords
    requires DeviceFile(opts, volume).Some? && DeviceFile(opts, volume).value !in readOnly
    requires SystemFile(opts) !in readOnly
    ensures UpdatedFiles(files, readOnly, opts, volume, pad)
            == files[DeviceFile(opts, volume).value := pad][SystemFile(opts) := pad]
  {
  }

  /** After a full rotation the next comparison matches, whatever the stack holds. */
  lemma RotationThenCompareMatches(files: Files, readOnly: set<string>, opts: Options, volume: Volume,
                                   pad: seq<Word>, uninitDevice: seq<Word>, uninitSystem: seq<Word>)
    requires |pad| == PadWords
    requires |uninitDevice| == PadWords && |uninitSystem| == PadWords
    requires DeviceFile(opts, volume).Some? && DeviceFile(opts, volume).value !in readOnly
    requires SystemFile(opts) !in readOnly
    ensures CompareResult(UpdatedFiles(files, readOnly, opts, volume, pad), opts, volume,
                          uninitDevice, uninitSystem)
  {
    RotationWritesBoth(files, readOnly, opts, volume, pad);
    var rotated := UpdatedFiles(files, readOnly, opts, volume, pad);
    var dp, sp := DeviceFile(opts, volume).value, SystemFile(opts);
    assert rotated[dp] == pad && rotated[sp] == pad;
    CompareExactPads(rotated, opts, volume, uninitDevice, uninitSystem);
  }

  // ---------------------------------------------------------------------
  // The whole check

  /**
   * When no call of the resolver within `4 * probe_timeout` finds a volume,
   * the check returns `!enforce_otp`, changes no file, and asked the
   * resolver exactly that many times (none when the timeout is not positive).
   */
  lemma CheckWithoutVolume(files: Files, readOnly: set<string>, opts: Options, resolve: Resolver,
                           uninitDevice: seq<Word>, uninitSystem: seq<Word>, pad: seq<Word>)
    requires TimeoutFits(opts.probeTimeout)
    requires |uninitDevice| == PadWords && |uninitSystem| == PadWords
    requires forall j | 0 <= j < 4 * opts.probeTimeout :: FirstUsable(resolve(j)).None?
    ensures var out := CheckOutcome(files, readOnly, opts, resolve, uninitDevice, uninitSystem, pad);
      && out.granted == !opts.enforceOtp
      && out.files == files
      && out.probes == (if opts.probeTimeout > 0 then 4 * opts.probeTimeout else 0)
  {
    PollStopsAtFirst(resolve, MaxTries(opts.probeTimeout));
  }

  /**
   * The resolver is asked at most `4 * probe_timeout` times; when a volume
   * is found it is the first one found, and the result is that volume's
   * comparison, with rotation exactly on a match.
   */
  lemma CheckUsesFirstVolume(files: Files, readOnly: set<string>, opts: Options, resolve: Resolver,
                             uninitDevice: seq<Word>, uninitSystem: seq<Word>, pad: seq<Word>)
    requires TimeoutFits(opts.probeTimeout)
    requires |uninitDevice| == PadWords && |uninitSystem| == PadWords
    ensures var out := CheckOutcome(files, readOnly, opts, resolve, uninitDevice, uninitSystem, pad);
      && out.probes <= (if opts.probeTimeout > 0 then 4 * opts.probeTimeout else 0)
      && ((exists j | 0 <= j < 4 * opts.probeTimeout :: FirstUsable(resolve(j)).Some?) ==>
            && 0 < out.probes
            && (forall j | 0 <= j < out.probes - 1 :: FirstUsable(resolve(j)).None?)
            && var v := FirstUsable(resolve(out.probes - 1));
               && v.Some?
               && out.granted == CompareResult(files, opts, v.value, uninitDevice, uninitSystem)
               && out.files == if out.granted then UpdatedFiles(files, readOnly, opts, v.value, pad) else files)
  {
    PollStopsAtFirst(resolve, MaxTries(opts.probeTimeout));
  }

  /** A denied check changes no file: a mismatch never rotates. */
  lemma CheckDenialChangesNothing(files: Files, readOnly: set<string>, opts: Options, resolve: Resolver,
                                  uninitDevice: seq<Word>, uninitSystem: seq<Word>, pad: seq<Word>)
    requires TimeoutFits(opts.probeTimeout)
    requires |uninitDevice| == PadWords && |uninitSystem| == PadWords
    requires !CheckOutcome(files, readOnly, opts, resolve, uninitDevice, uninitSystem, pad).granted
    ensures CheckOutcome(files, readOnly, opts, resolve, uninitDevice, uninitSystem, pad).files == files
  {
  }

  /**
   * A found volume with full-length pads: a match grants access and leaves
   * both pads equal to the new pad when both reopen for writing; a mismatch
   * denies and changes nothing.
   */
  lemma CheckDecidesByPads(files: Files, readOnly: set<string>, opts: Options, resolve: Resolver,
                           uninitDevice: seq<Word>, uninitSystem: seq<Word>, pad: seq<Word>)
    requires TimeoutFits(opts.probeTimeout)
    requires |uninitDevice| == PadWords && |uninitSystem| == PadWords && |pad| == PadWords
    requires var v := Poll(resolve, MaxTries(opts.probeTimeout)).volume;
      && v.Some? && DeviceFile(opts, v.value).Some?
      && var dp, sp := DeviceFile(opts, v.value).value, SystemFile(opts);
         dp in files && sp in files && |files[dp]| == PadWords && |files[sp]| == PadWords
    ensures var v := Poll(resolve, MaxTries(opts.probeTimeout)).volume.value;
      var dp, sp := DeviceFile(opts, v).value, SystemFile(opts);
      var out := CheckOutcome(files, readOnly, opts, resolve, uninitDevice, uninitSystem, pad);
      && (out.granted <==> files[dp] == files[sp])
      && (!out.granted ==> out.files == files)
      && (out.granted && dp !in readOnly && sp !in readOnly ==> out.files == files[dp := pad][sp := pad])
  {
  }

  /**
   * The asymmetric missing-pad rule: with a volume found, a missing system
   * pad grants access and attempts rotation, while a present system pad with
   * a device pad that cannot be opened denies access and changes nothing.
   */
  lemma CheckMissingPads(files: Files, readOnly: set<string>, opts: Options, resolve: Resolver,
                         uninitDevice: seq<Word>, uninitSystem: seq<Word>, pad: seq<Word>)
    requires TimeoutFits(opts.probeTimeout)
    requires |uninitDevice| == PadWords && |uninitSystem| == PadWords
    requires Poll(resolve, MaxTries(opts.probeTimeout)).volume.Some?
    ensures var v := Poll(resolve, MaxTries(opts.probeTimeout)).volume.value;
      var out := CheckOutcome(files, readOnly, opts, resolve, uninitDevice, uninitSystem, pad);
      && (SystemFile(opts) !in files ==>
            out.granted && out.files == UpdatedFiles(files, readOnly, opts, v, pad))
      && (SystemFile(opts) in files && (DeviceFile(opts, v).None? || DeviceFile(opts, v).value !in files) ==>
            !out.granted && out.files == files)
  {
  }
}

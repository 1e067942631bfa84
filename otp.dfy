/**
 * The functions of otp.c as methods over the filesystem: each is proved to
 * do what the matching function of OtpSpec describes. `Update`, `Compare`
 * and `Check` close every handle they open; `OpenDevice` and `OpenSystem`
 * return theirs, still open, to the caller.
 */
module Otp {
  import opened Optional
  import opened Config
  import opened Paths
  import opened Volumes
  import opened FileStore
  import opened OtpSpec

  /**
   * `pusb_otp_open_device`: no mount point, no file; otherwise build
   * `<mnt>/<device_otp_directory>/<hostname>.otp` in a buffer of the computed
   * size and open it.
   */
  method OpenDevice(fs: FileSystem, opts: Options, volume: Volume, mode: Mode) returns (f: Option<Handle>)
    modifies fs
    ensures f == OpenResult(old(fs.files), fs.readOnly, DeviceFile(opts, volume), mode)
    ensures fs.files == FilesAfterOpen(old(fs.files), fs.readOnly, DeviceFile(opts, volume), mode)
    ensures fs.handles == if f.Some? then old(fs.handles) + multiset{f.value} else old(fs.handles)
  {
    if volume.mountPoint.None? {
      return None;
    }
    var mnt := volume.mountPoint.value;
    var pathSize := DevicePathSize(mnt, opts.deviceOtpDirectory, opts.hostname);
    var text := Format(DeviceFormat, [mnt, opts.deviceOtpDirectory, opts.hostname]);
    DevicePathFits(mnt, opts.deviceOtpDirectory, opts.hostname);
    var path := Snprintf(pathSize, text.value);
    f := fs.Open(path, mode);
  }

  /**
   * `pusb_otp_open_system`: build `<system_otp_directory>/<serial>.otp` in a
   * buffer of the computed size and open it.
   */
  method OpenSystem(fs: FileSystem, opts: Options, mode: Mode) returns (f: Option<Handle>)
    modifies fs
    ensures f == OpenResult(old(fs.files), fs.readOnly, Some(SystemFile(opts)), mode)
    ensures fs.files == AfterOpen(old(fs.files), fs.readOnly, SystemFile(opts), mode)
    ensures fs.handles == if f.Some? then old(fs.handles) + multiset{f.value} else old(fs.handles)
  {
    var pathSize := SystemPathSize(opts.systemOtpDirectory, opts.serial);
    var text := Format(SystemFormat, [opts.systemOtpDirectory, opts.serial]);
    SystemPathFits(opts.systemOtpDirectory, opts.serial);
    var path := Snprintf(pathSize, text.value);
    f := fs.Open(path, mode);
  }

  /** The loop `magic[i] = rand()` filling the new pad. */
  method GeneratePad(rand: nat -> Word) returns (pad: seq<Word>)
    ensures pad == PadFrom(rand)
  {
    var magic := new Word[PadWords];
    var i := 0;
    while i < PadWords
      invariant 0 <= i <= PadWords
      invariant forall k | 0 <= k < i :: magic[k] == rand(k)
    {
      magic[i] := rand(i);
      i := i + 1;
    }
    pad := magic[..];
  }

  /**
   * `pusb_otp_update`: reopen both pads with "w+", draw a new pad and write
   * it to the system file, then to the device file.
   */
  method Update(fs: FileSystem, opts: Options, volume: Volume, rand: nat -> Word)
    modifies fs
    ensures fs.files == UpdatedFiles(old(fs.files), fs.readOnly, opts, volume, PadFrom(rand))
    ensures fs.handles == old(fs.handles)
  {
    var fDevice := OpenDevice(fs, opts, volume, WritePlus);
    if fDevice.None? {
      return;
    }
    var fSystem := OpenSystem(fs, opts, WritePlus);
    if fSystem.None? {
      fs.Close(fDevice.value);
      return;
    }
    var magic := GeneratePad(rand);
    fs.WritePad(fSystem.value, magic);
    fs.WritePad(fDevice.value, magic);
    fs.Close(fSystem.value);
    fs.Close(fDevice.value);
  }

  /**
   * `pusb_otp_compare`: open the system pad, then the device pad, read one
   * pad from each and compare the buffers.
   */
  method Compare(fs: FileSystem, opts: Options, volume: Volume,
                 uninitDevice: seq<Word>, uninitSystem: seq<Word>) returns (matched: bool)
    requires |uninitDevice| == PadWords && |uninitSystem| == PadWords
    modifies fs
    ensures matched == CompareResult(old(fs.files), opts, volume, uninitDevice, uninitSystem)
    ensures fs.files == old(fs.files)
    ensures fs.handles == old(fs.handles)
  {
    var fSystem := OpenSystem(fs, opts, Read);
    if fSystem.None? {
      return true;
    }
    var fDevice := OpenDevice(fs, opts, volume, Read);
    if fDevice.None? {
      fs.Close(fSystem.value);
      return false;
    }
    var magicDevice := fs.ReadPad(fDevice.value, uninitDevice);
    var magicSystem := fs.ReadPad(fSystem.value, uninitSystem);
    matched := magicSystem == magicDevice;
    fs.Close(fSystem.value);
    fs.Close(fDevice.value);
  }

  /**
   * `pusb_otp_check`: poll for the device's volume, fall back on the
   * enforce policy when none appears, otherwise compare and rotate on a match.
   */
  method Check(fs: FileSystem, opts: Options, resolve: Resolver, rand: nat -> Word,
               uninitDevice: seq<Word>, uninitSystem: seq<Word>) returns (granted: bool, ghost probes: nat)
    requires TimeoutFits(opts.probeTimeout)
    requires |uninitDevice| == PadWords && |uninitSystem| == PadWords
    modifies fs
    ensures Outcome(granted, fs.files, probes)
            == CheckOutcome(old(fs.files), fs.readOnly, opts, resolve, uninitDevice, uninitSystem, PadFrom(rand))
    ensures fs.handles == old(fs.handles)
  {
    var maxTries := MaxTries(opts.probeTimeout);
    var volume, calls := PollVolume(resolve, maxTries);
    probes := calls;
    if volume.None? {
      return !opts.enforceOtp, probes;
    }
    granted := Compare(fs, opts, volume.value, uninitDevice, uninitSystem);
    if granted {
      Update(fs, opts, volume.value, rand);
    }
  }
}

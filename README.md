# pam_usb one-time pads, modelled in Dafny

pam_usb authenticates a user by the presence of a USB stick. To tell the paired
stick from a copy with the same serial number, `pam_usb/src/otp.c` keeps a
one-time pad of 1024 C `int` words in two files: one on the stick
(`<mount point>/<device_otp_directory>/<hostname>.otp`) and one on the host
(`<system_otp_directory>/<serial>.otp`). `pusb_otp_check` waits for a mounted
volume of the drive, compares the two pads, and on a match replaces both with a
freshly drawn pad.

The model follows the file function by function:

- `Paths` (pure): a `%s`-only model of `snprintf` formatting, the two path
  formats, the buffer sizes the C code computes with `strlen`, and the proof
  that each buffer is exactly one longer than the formatted path, so the name is
  never truncated.
- `Volumes`: the HAL volume list as a sequence of records
  `{present, ignored, mounted, mountPoint}`; `FindVolume` is the scan of
  `pusb_otp_find_volume` (a loop proved against `FirstUsable`); `PollVolume` is
  the bounded polling loop of `pusb_otp_check`, with the resolver given as an
  oracle `nat -> seq<Volume>` (the list seen by its i-th call) and the timeout
  as a number of attempts, `MaxTries`.
- `FileStore`: the filesystem as a class `FileSystem` whose fields are the file
  contents (`map<string, seq<Word>>`), the set of paths where `fopen(..., "w+")`
  fails, and the multiset of open handles. `Open`, `Close`, `ReadPad` and
  `WritePad` model `fopen` in the modes "r" and "w+", `fclose`, `fread` and
  `fwrite`. "r" succeeds exactly when the file exists; "w+" succeeds unless the
  path is refused, and then truncates or creates the file.
- `OtpSpec`: the protocol as functions of the filesystem state
  (`CompareResult`, `UpdatedFiles`, `CheckOutcome`) and the lemmas stating what
  the protocol guarantees.
- `Otp`: `pusb_otp_open_device`, `pusb_otp_open_system`, `pusb_otp_update`,
  `pusb_otp_compare` and `pusb_otp_check` as methods over a `FileSystem`. Each
  is proved equal to its `OtpSpec` function. `Update`, `Compare` and `Check` close
  every handle they open; `OpenDevice` and `OpenSystem` return theirs, still
  open, to the caller.

`fread` does not check how much it read, so a short pad file leaves part of the
stack buffer uninitialised, and `memcmp` then compares that memory. The model
keeps this behaviour: the previous contents of the two stack buffers are the
parameters `uninitDevice` and `uninitSystem`. `CompareFullPads` shows that
these contents do not matter when both pads have full length. The drawn pad is
the first 1024 values of a `rand` oracle.

In three places the model follows the code rather than what one might expect of the protocol:
- a short read is not a separate failure; it is compared like any other buffer;
- rotation returns nothing, and when the system pad cannot be reopened the
  device pad has already been truncated by its "w+" open
  (`RotationWithoutSystemPad`);
- the resolver's filtering (present, not ignored, mounted) is done by
  `pusb_otp_find_volume` itself, so it is part of the model.

## Model

| member | source | states |
|---|---|---|
| `Paths.FormatLength` | pam_usb/src/otp.c:87-88 | formatting succeeds exactly when there is one argument per `%s`, and the text's length is the format's length, less two per `%s`, plus the arguments' lengths |
| `Paths.Snprintf` | pam_usb/src/otp.c:86-88 | the buffer holds a prefix of the formatted text, of length `min(len, size - 1)` |
| `Paths.DevicePathFits` | pam_usb/src/otp.c:79-88 | `"%s/%s/%s.otp"` formats to `mnt/dir/host.otp`, `path_size` is its length plus one, and so snprintf keeps the whole path |
| `Paths.SystemPathFits` | pam_usb/src/otp.c:105-114 | `"%s/%s.otp"` formats to `dir/serial.otp`, `path_size` is its length plus one, and so snprintf keeps the whole path |
| `Volumes.FirstUsableIsFirst` | pam_usb/src/otp.c:44-65 | the volume chosen is the first one in list order that HAL could build, that is not ignored and that is mounted; none exactly when no volume qualifies, the empty list included |
| `Volumes.FindVolume` | pam_usb/src/otp.c:37-65 | the scan, with its early exit for an empty list and its `continue`s, returns the volume described by `FirstUsable` |
| `Volumes.MaxTries` | pam_usb/src/otp.c:191 | `probe_timeout * 1000000 / 250000`, with C's truncating division, equals `4 * probe_timeout` |
| `Volumes.PollFromStopsAtFirst` | pam_usb/src/otp.c:192-199 | polling from attempt i calls the resolver at most up to `maxtries`, stops at the first call that finds a volume, and when none finds one makes every call |
| `Volumes.PollStopsAtFirst` | pam_usb/src/otp.c:191-200 | at most `maxtries` calls (none when it is not positive); a found volume is the first call's find with all earlier calls empty; no volume exactly when every call within `maxtries` is empty |
| `Volumes.PollVolume` | pam_usb/src/otp.c:192-199 | the `for` loop with its `break` returns the volume and the call count described by `Poll` |
| `FileStore.AfterOpen` | pam_usb/src/otp.c:89 | `fopen` touches at most the opened path and never removes a file; the path exists afterwards exactly when it existed or the open succeeded; "r" and failed opens keep its contents; a successful "w+" leaves it empty |
| `FileStore.ReadBufferContents` | pam_usb/src/otp.c:174-176 | the read buffer holds 1024 words: the file's first words, then the previous stack contents past a short file |
| `FileStore.WriteAtStartContents` | pam_usb/src/otp.c:148-150 | a write at offset 0 replaces the start of the file with the data and keeps any longer tail |
| `FileStore.WriteThenRead` | pam_usb/src/otp.c:148-150 | writing a pad to a truncated file and reading it back gives the same 1024 words |
| `FileStore.FileSystem.Open` | pam_usb/src/otp.c:89-96 | `fopen` gives a handle exactly when the mode allows it, truncates on "w+", and records the open handle |
| `FileStore.FileSystem.Close` | pam_usb/src/otp.c:178-179 | `fclose` removes the handle and changes no file |
| `FileStore.FileSystem.ReadPad` | pam_usb/src/otp.c:174 | `fread` of a pad returns the read buffer of the file |
| `FileStore.FileSystem.WritePad` | pam_usb/src/otp.c:148 | `fwrite` replaces the start of that file only |
| `OtpSpec.DeviceOpenWithoutMountPoint` | pam_usb/src/otp.c:76-78 | a volume without a mount point gives no device handle and touches no file |
| `OtpSpec.PadFrom` | pam_usb/src/otp.c:144-146 | the drawn pad has exactly 1024 words |
| `OtpSpec.CompareWithoutSystemPad` | pam_usb/src/otp.c:166-167 | a system pad that cannot be opened gives a pass |
| `OtpSpec.CompareWithoutDevicePad` | pam_usb/src/otp.c:168-172 | an open system pad with a device pad that cannot be opened, or no mount point, gives a failure |
| `OtpSpec.CompareFullPads` | pam_usb/src/otp.c:173-180 | with both pads at least 1024 words long, the result is the equality of their first 1024 words, whatever the stack held |
| `OtpSpec.CompareExactPads` | pam_usb/src/otp.c:177-180 | with both pads exactly 1024 words, the result is true exactly when the two pads are identical |
| `OtpSpec.RotationWithoutDevicePad` | pam_usb/src/otp.c:132-136 | when the device pad cannot be opened for writing, no file changes |
| `OtpSpec.RotationWithoutSystemPad` | pam_usb/src/otp.c:137-142 | when only the system pad cannot be opened, nothing is written but the device pad is left truncated |
| `OtpSpec.RotationWritesBoth` | pam_usb/src/otp.c:143-153 | when both open, both files hold the new pad and every other file is unchanged, even if the two paths name the same file |
| `OtpSpec.RotationThenCompareMatches` | pam_usb/src/otp.c:144-150 | after a full rotation the next comparison matches, whatever the stack holds |
| `OtpSpec.CheckWithoutVolume` | pam_usb/src/otp.c:191-201 | when no call within `4 * probe_timeout` finds a volume, the check returns `!enforce_otp`, changes no file, and made exactly that many calls (none for a timeout of 0) |
| `OtpSpec.CheckUsesFirstVolume` | pam_usb/src/otp.c:191-211 | at most `4 * probe_timeout` calls; with a volume found, the first one, the result is its comparison result and the files are rotated exactly on a match |
| `OtpSpec.CheckDenialChangesNothing` | pam_usb/src/otp.c:200-211 | a denied check, by policy, missing pad or mismatch, leaves every file unchanged |
| `OtpSpec.CheckDecidesByPads` | pam_usb/src/otp.c:202-211 | with full-length pads, access is granted exactly when the pads are equal; a mismatch changes nothing; a match with writable paths leaves both pads equal to the new pad |
| `OtpSpec.CheckMissingPads` | pam_usb/src/otp.c:202-207 | with a volume found, a missing system pad grants access and attempts rotation; a present system pad with a missing device pad denies and changes nothing |
| `Otp.OpenDevice` | pam_usb/src/otp.c:68-97 | fails without a mount point and otherwise opens exactly `DevicePath` in the given mode |
| `Otp.OpenSystem` | pam_usb/src/otp.c:99-123 | opens exactly `SystemPath` in the given mode |
| `Otp.GeneratePad` | pam_usb/src/otp.c:144-146 | the loop fills all 1024 words, word i with the i-th value of `rand` |
| `Otp.Update` | pam_usb/src/otp.c:125-156 | the new files are `UpdatedFiles` of the old ones, and every handle opened is closed |
| `Otp.Compare` | pam_usb/src/otp.c:158-181 | returns `CompareResult`, changes no file, and closes every handle it opened, the system handle on the early failure too |
| `Otp.Check` | pam_usb/src/otp.c:183-212 | result, new files and number of resolver calls are those of `CheckOutcome`; no handle is left open |

## Left out

- Memory allocation failure of the path buffers (lines 81-85, 107-111): the model's allocation always succeeds.
- The HAL library calls and the freeing of HAL objects: replaced by the volume records and the resolver oracle.
- `usleep(250000)` and elapsed time: the timeout is the number of resolver calls.
- `srand(getpid() * time(NULL))` and `rand()`: the values drawn are the oracle `rand`.
- Partial transfers of `fread` and `fwrite`, buffering in `fclose`, and `sync()`: reads and writes take effect whole and at once.
- Reasons `fopen` fails other than a missing file for "r" and a refused path for "w+" (for instance missing read permission).
- `FileStore.FileSystem.WritePad`: writes at offset 0, because otp.c writes every handle once, right after opening it.
- Logging: no effect on the outcome.
- `Otp.Check`: requires that `probe_timeout * 1000000` fits in a C `int`; the overflow itself is not modelled.
- `memcmp` compares bytes; the model compares the words, which is the same test for equality. Files are whole words long, so a pad file whose byte length is not a multiple of 4, and the partial word `fread` would copy from it, are not modelled.
- C strings are modelled by their characters before the terminating NUL, so they are assumed to hold no NUL, and one character stands for one byte; the path sizes are counted in the same unit, so the no-truncation result holds in either.
- Concurrent checks racing on the same pad pair.

/**
 * The pad file names built by `pusb_otp_open_device` and `pusb_otp_open_system`:
 * a `%s`-only model of `snprintf` formatting, the buffer size the C code computes
 * with `strlen`, and the proof that the buffer always holds the whole name.
 */
module Paths {
  import opened Optional

  /** Number of `%s` conversions in a format string. */
  function Conversions(fmt: string): nat
    decreases |fmt|
  {
    if |fmt| == 0 then 0
    else if |fmt| >= 2 && fmt[0] == '%' && fmt[1] == 's' then 1 + Conversions(fmt[2..])
    else Conversions(fmt[1..])
  }

  /** Sum of the lengths of the arguments. */
  function TotalLength(args: seq<string>): nat
  {
    if args == [] then 0 else |args[0]| + TotalLength(args[1..])
  }

  /**
   * The text `sprintf(fmt, args...)` produces when every conversion is `%s`
   * and every other character is copied; None when the argument count does
   * not match the conversions.
   */
  function Format(fmt: string, args: seq<string>): (r: Option<string>)
    decreases |fmt|
  {
    if |fmt| == 0 then
      if args == [] then Some("") else None
    else if |fmt| >= 2 && fmt[0] == '%' && fmt[1] == 's' then
      if args == [] then None
      else match Format(fmt[2..], args[1..])
        case Some(rest) => Some(args[0] + rest)
        case None => None
    else
      match Format(fmt[1..], args)
      case Some(rest) => Some([fmt[0]] + rest)
      case None => None
  }

  /**
   * Formatting succeeds exactly when there is one argument per conversion,
   * and the text's length is the format's length, less two per `%s`, plus
   * the arguments' lengths.
   */
  lemma {:induction false} FormatLength(fmt: string, args: seq<string>)
    ensures Format(fmt, args).Some? <==> Conversions(fmt) == |args|
    ensures Format(fmt, args).Some? ==>
              |Format(fmt, args).value| == |fmt| - 2 * Conversions(fmt) + TotalLength(args)
    decreases |fmt|
  {
    if |fmt| == 0 {
    } else if |fmt| >= 2 && fmt[0] == '%' && fmt[1] == 's' {
      if args != [] {
        FormatLength(fmt[2..], args[1..]);
      }
    } else {
      FormatLength(fmt[1..], args);
    }
  }

  /**
   * What `snprintf(buf, size, ...)` leaves in `buf` as a C string when the
   * formatted text is `text`: at most `size - 1` characters of it.
   */
  function Snprintf(size: nat, text: string): (written: string)
    ensures written <= text
    ensures size > 0 ==> |written| == if |text| < size then |text| else size - 1
    ensures size == 0 ==> written == []
  {
    if size == 0 then [] else if |text| < size then text else text[..size - 1]
  }

  const DeviceFormat: string := "%s/%s/%s.otp"
  const SystemFormat: string := "%s/%s.otp"

  /** The device pad: `<mount point>/<device_otp_directory>/<hostname>.otp`. */
  function DevicePath(mnt: string, dir: string, host: string): string
  {
    mnt + ("/" + (dir + ("/" + (host + ".otp"))))
  }

  /** The system pad: `<system_otp_directory>/<serial>.otp`. */
  function SystemPath(dir: string, serial: string): string
  {
    dir + ("/" + (serial + ".otp"))
  }

  /** `path_size` of `pusb_otp_open_device`, term by term. */
  function DevicePathSize(mnt: string, dir: string, host: string): nat
  {
    |mnt| + 1 + |dir| + 1 + |host| + |".otp"| + 1
  }

  /** `path_size` of `pusb_otp_open_system`, term by term. */
  function SystemPathSize(dir: string, serial: string): nat
  {
    |dir| + 1 + |serial| + |".otp"| + 1
  }

  lemma FormatLiteral(c: char, fmt: string, args: seq<string>)
    requires !(c == '%' && |fmt| > 0 && fmt[0] == 's')
    ensures Format([c] + fmt, args) == match Format(fmt, args)
                                       case Some(rest) => Some([c] + rest)
                                       case None => None
  {
    assert ([c] + fmt)[1..] == fmt;
  }

  lemma FormatConversion(fmt: string, arg: string, args: seq<string>)
    ensures Format("%s" + fmt, [arg] + args) == match Format(fmt, args)
                                                case Some(rest) => Some(arg + rest)
                                                case None => None
  {
    assert ("%s" + fmt)[2..] == fmt;
    assert ([arg] + args)[1..] == args;
  }

  /** Formatting ".otp" with no arguments copies it. */
  lemma FormatSuffix()
    ensures Format(".otp", []) == Some(".otp")
  {
    FormatLiteral('p', "", []);
    assert ['p'] + "" == "p";
    FormatLiteral('t', "p", []);
    assert ['t'] + "p" == "tp";
    FormatLiteral('o', "tp", []);
    assert ['o'] + "tp" == "otp";
    FormatLiteral('.', "otp", []);
    assert ['.'] + "otp" == ".otp";
  }

  /** Formatting "/%s.otp" with one argument appends it and the suffix. */
  lemma FormatNameSuffix(name: string)
    ensures Format("/%s.otp", [name]) == Some("/" + (name + ".otp"))
  {
    FormatSuffix();
    FormatConversion(".otp", name, []);
    assert [name] + [] == [name];
    FormatLiteral('/', "%s.otp", [name]);
    assert "/" + "%s.otp" == "/%s.otp";
  }

  /** Formatting "%s/%s.otp" joins its two arguments as a pad file name. */
  lemma FormatDirName(dir: string, name: string)
    ensures Format("%s/%s.otp", [dir, name]) == Some(dir + ("/" + (name + ".otp")))
  {
    FormatNameSuffix(name);
    FormatConversion("/%s.otp", dir, [name]);
    assert "%s" + "/%s.otp" == "%s/%s.otp";
    assert [dir] + [name] == [dir, name];
  }

  /** Formatting "/%s/%s.otp" with two arguments. */
  lemma FormatSlashDirName(dir: string, name: string)
    ensures Format("/%s/%s.otp", [dir, name]) == Some("/" + (dir + ("/" + (name + ".otp"))))
  {
    FormatDirName(dir, name);
    FormatLiteral('/', "%s/%s.otp", [dir, name]);
    assert "/" + "%s/%s.otp" == "/%s/%s.otp";
  }

  /** Formatting the device format gives the device path. */
  lemma DeviceFormatText(mnt: string, dir: string, host: string)
    ensures Format(DeviceFormat, [mnt, dir, host]) == Some(DevicePath(mnt, dir, host))
  {
    FormatSlashDirName(dir, host);
    FormatConversion("/%s/%s.otp", mnt, [dir, host]);
    assert "%s" + "/%s/%s.otp" == DeviceFormat;
    assert [mnt] + [dir, host] == [mnt, dir, host];
  }

  /**
   * The device format yields exactly the device path, and the size computed
   * by the C code is one more than its length, so snprintf never truncates.
   */
  lemma DevicePathFits(mnt: string, dir: string, host: string)
    ensures Format(DeviceFormat, [mnt, dir, host]) == Some(DevicePath(mnt, dir, host))
    ensures DevicePathSize(mnt, dir, host) == |DevicePath(mnt, dir, host)| + 1
    ensures Snprintf(DevicePathSize(mnt, dir, host), DevicePath(mnt, dir, host)) == DevicePath(mnt, dir, host)
  {
    DeviceFormatText(mnt, dir, host);
  }

  /** The same for the system format, path and size. */
  lemma SystemPathFits(dir: string, serial: string)
    ensures Format(SystemFormat, [dir, serial]) == Some(SystemPath(dir, serial))
    ensures SystemPathSize(dir, serial) == |SystemPath(dir, serial)| + 1
    ensures Snprintf(SystemPathSize(dir, serial), SystemPath(dir, serial)) == SystemPath(dir, serial)
  {
    FormatDirName(dir, serial);
  }
}

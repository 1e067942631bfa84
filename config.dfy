/**
 * The part of pam_usb's option record (`t_pusb_options`) that the one-time-pad
 * check reads. Strings are the characters of a C string before its terminator.
 */
module Config {
  datatype Options = Options(
    probeTimeout: int,           // seconds to wait for a volume of the device
    enforceOtp: bool,            // whether a missing volume denies access
    deviceOtpDirectory: string,  // directory on the volume holding the device pad
    systemOtpDirectory: string,  // directory on the host holding the system pad
    hostname: string,            // names the device pad
    serial: string               // the device's serial number; names the system pad
  )
}

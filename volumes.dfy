/**
 * Finding the mounted volume of the device (`pusb_otp_find_volume`) and the
 * bounded polling for it at the start of `pusb_otp_check`. The HAL volume
 * list is a sequence of records; the resolver that the polling loop calls
 * repeatedly is an oracle giving the volume list seen by its i-th call.
 */
module Volumes {
  import opened Optional

  /**
   * One entry of the drive's volume list: whether HAL could build the volume
   * object at all, its ignore flag, whether it is mounted, and its mount point.
   */
  datatype Volume = Volume(present: bool, ignored: bool, mounted: bool, mountPoint: Option<string>)

  /** The list seen by the i-th call of the resolver (0-based). */
  type Resolver = nat -> seq<Volume>

  /** A volume that the search accepts. */
  predicate Usable(v: Volume)
  {
    v.present && !v.ignored && v.mounted
  }

  /** The volume the search returns: the first usable one, in list order. */
  function FirstUsable(volumes: seq<Volume>): Option<Volume>
  {
    if volumes == [] then None
    else if Usable(volumes[0]) then Some(volumes[0])
    else FirstUsable(volumes[1..])
  }

  /**
   * FirstUsable is "the first element that is usable": a Some result sits at
   * an index with no usable volume before it, and None means no volume is usable.
   */
  lemma {:induction false} FirstUsableIsFirst(volumes: seq<Volume>)
    ensures FirstUsable(volumes).None? <==> forall i | 0 <= i < |volumes| :: !Usable(volumes[i])
    ensures FirstUsable(volumes).Some? ==>
              exists i | 0 <= i < |volumes| :: volumes[i] == FirstUsable(volumes).value && Usable(volumes[i])
                                                && forall j | 0 <= j < i :: !Usable(volumes[j])
  {
    if volumes != [] {
      FirstUsableIsFirst(volumes[1..]);
      if !Usable(volumes[0]) {
        if FirstUsable(volumes).Some? {
          var i :| 0 <= i < |volumes[1..]| && volumes[1..][i] == FirstUsable(volumes).value
                   && Usable(volumes[1..][i]) && forall j | 0 <= j < i :: !Usable(volumes[1..][j]);
          assert volumes[i + 1] == FirstUsable(volumes).value;
          assert forall j | 0 <= j < i + 1 :: !Usable(volumes[j]) by {
            forall j | 0 <= j < i + 1 ensures !Usable(volumes[j]) {
              if j > 0 { assert volumes[j] == volumes[1..][j - 1]; }
            }
          }
        } else {
          forall i | 0 <= i < |volumes| ensures !Usable(volumes[i]) {
            if i > 0 { assert volumes[i] == volumes[1..][i - 1]; }
          }
        }
      }
    }
  }

  /** `pusb_otp_find_volume`: scan the list, skipping unusable entries. */
  method FindVolume(volumes: seq<Volume>) returns (found: Option<Volume>)
    ensures found == FirstUsable(volumes)
  {
    if |volumes| == 0 {
      return None;
    }
    var i := 0;
    while i < |volumes|
      invariant 0 <= i <= |volumes|
      invariant FirstUsable(volumes[i..]) == FirstUsable(volumes)
    {
      var volume := volumes[i];
      assert volumes[i..][1..] == volumes[i + 1..];
      if !volume.present {
        i := i + 1;
        continue;
      }
      if volume.ignored {
        i := i + 1;
        continue;
      }
      if volume.mounted {
        return Some(volume);
      }
      i := i + 1;
    }
    return None;
  }

  /** `probe_timeout * 1000000` fits in a C `int`. */
  predicate TimeoutFits(probeTimeout: int)
  {
    -0x8000_0000 <= probeTimeout * 1000000 < 0x8000_0000
  }

  /** C integer division, which truncates toward zero. */
  function CDiv(a: int, b: int): int
    requires b > 0
  {
    if a >= 0 then a / b else -((-a) / b)
  }

  /** `maxtries`: the number of 250 ms polls in `probe_timeout` seconds. */
  function MaxTries(probeTimeout: int): (tries: int)
    requires TimeoutFits(probeTimeout)
    ensures tries == 4 * probeTimeout
  {
    var micros := probeTimeout * 1000000;
    assert micros == (4 * probeTimeout) * 250000;
    CDiv(micros, 250000)
  }

  /** Outcome of polling: the volume found, if any, and how many times the resolver was called. */
  datatype PollResult = PollResult(volume: Option<Volume>, calls: nat)

  /** Polling from attempt `i` on, as the loop in `pusb_otp_check` does. */
  function PollFrom(resolve: Resolver, i: nat, maxTries: int): PollResult
    decreases maxTries - i
  {
    if i >= maxTries then PollResult(None, i)
    else match FirstUsable(resolve(i))
      case Some(v) => PollResult(Some(v), i + 1)
      case None => PollFrom(resolve, i + 1, maxTries)
  }

  function Poll(resolve: Resolver, maxTries: int): PollResult
  {
    PollFrom(resolve, 0, maxTries)
  }

  /**
   * Polling calls the resolver at most `maxTries` times and stops at the
   * first call that finds a volume; when none does, every call was made and
   * each one found nothing.
   */
  lemma {:induction false} PollFromStopsAtFirst(resolve: Resolver, i: nat, maxTries: int)
    ensures var r := PollFrom(resolve, i, maxTries);
      && i <= r.calls
      && (r.calls <= maxTries || r.calls == i)
      && (r.volume.Some? ==>
            && i < r.calls
            && r.volume == FirstUsable(resolve(r.calls - 1))
            && forall j | i <= j < r.calls - 1 :: FirstUsable(resolve(j)).None?)
      && (r.volume.None? ==>
            && r.calls == (if i < maxTries then maxTries else i)
            && forall j | i <= j < maxTries :: FirstUsable(resolve(j)).None?)
    decreases maxTries - i
  {
    if i < maxTries && FirstUsable(resolve(i)).None? {
      PollFromStopsAtFirst(resolve, i + 1, maxTries);
    }
  }

  /** Polling as a whole: the bound on calls, the first-hit rule, and the all-miss case. */
  lemma PollStopsAtFirst(resolve: Resolver, maxTries: int)
    ensures var r := Poll(resolve, maxTries);
      && r.calls <= (if maxTries > 0 then maxTries else 0)
      && (r.volume.Some? ==>
            && 0 < r.calls
            && r.volume == FirstUsable(resolve(r.calls - 1))
            && forall j | 0 <= j < r.calls - 1 :: FirstUsable(resolve(j)).None?)
      && (r.volume.None? <==> forall j | 0 <= j < maxTries :: FirstUsable(resolve(j)).None?)
      && (r.volume.None? ==> r.calls == (if maxTries > 0 then maxTries else 0))
  {
    PollFromStopsAtFirst(resolve, 0, maxTries);
    var r := Poll(resolve, maxTries);
    if r.volume.Some? {
      assert FirstUsable(resolve(r.calls - 1)).Some?;
    }
  }

  /** The polling loop; the 250 ms sleep between calls is not modelled. */
  method PollVolume(resolve: Resolver, maxTries: int) returns (volume: Option<Volume>, calls: nat)
    ensures PollResult(volume, calls) == Poll(resolve, maxTries)
  {
    var i: nat := 0;
    volume := None;
    while i < maxTries
      invariant PollFrom(resolve, i, maxTries) == Poll(resolve, maxTries)
      invariant volume == None
      decreases maxTries - i
    {
      volume := FindVolume(resolve(i));
      if volume.Some? {
        break;
      }
      i := i + 1;
    }
    calls := if volume.Some? then i + 1 else i;
  }
}

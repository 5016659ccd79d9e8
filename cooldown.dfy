/**
 * The per-user cooldown of the `like` command. Times are `datetime.now()`
 * values counted in whole microseconds. The elapsed time is read through
 * `timedelta.seconds`, the seconds-of-day field of a normalised timedelta: it
 * ignores whole days and the microsecond remainder.
 */
module CooldownGate {
  import opened Wrappers

  const CooldownSeconds: int := 30
  const MicrosPerSecond: int := 1000000
  const SecondsPerDay: int := 86400

  /** `(now - last).seconds`. */
  function ElapsedSeconds(last: int, now: int): (s: int)
    ensures 0 <= s < SecondsPerDay
    ensures 0 <= now - last < SecondsPerDay * MicrosPerSecond ==>
      s * MicrosPerSecond <= now - last < (s + 1) * MicrosPerSecond
  {
    ((now - last) / MicrosPerSecond) % SecondsPerDay
  }

  /**
   * The wait `like` reports instead of proceeding: `Some(remaining)` when the
   * user has an entry and `30 - elapsed.seconds` is still positive.
   */
  function CooldownWait(cooldowns: map<nat, int>, user: nat, now: int): (wait: Option<int>)
    ensures user !in cooldowns ==> wait == None
    ensures user in cooldowns ==> (wait.Some? <==> ElapsedSeconds(cooldowns[user], now) < CooldownSeconds)
    ensures wait.Some? ==> 1 <= wait.value <= CooldownSeconds
  {
    if user in cooldowns && CooldownSeconds - ElapsedSeconds(cooldowns[user], now) > 0
    then Some(CooldownSeconds - ElapsedSeconds(cooldowns[user], now))
    else None
  }

  /**
   * A second call less than 30 s after the one that was let through is
   * refused, with the whole seconds still to wait (1 to 30) as the remainder.
   */
  lemma RefusedWithinCooldown(cooldowns: map<nat, int>, user: nat, last: int, now: int)
    requires 0 <= now - last < CooldownSeconds * MicrosPerSecond
    ensures CooldownWait(cooldowns[user := last], user, now)
         == Some(CooldownSeconds - (now - last) / MicrosPerSecond)
  {
    var s := ElapsedSeconds(last, now);
    assert s < CooldownSeconds;
    assert s == (now - last) / MicrosPerSecond;
  }

  /**
   * `timedelta.seconds` is the whole seconds of the gap left over after the
   * whole days are taken out, for gaps of any length and of either sign.
   */
  lemma ElapsedSecondsOfDay(last: int, now: int, days: int)
    requires 0 <= now - last - days * SecondsPerDay * MicrosPerSecond < SecondsPerDay * MicrosPerSecond
    ensures ElapsedSeconds(last, now) * MicrosPerSecond <= now - last - days * SecondsPerDay * MicrosPerSecond
    ensures now - last - days * SecondsPerDay * MicrosPerSecond < (ElapsedSeconds(last, now) + 1) * MicrosPerSecond
  {
    var rest := now - last - days * SecondsPerDay * MicrosPerSecond;
    assert (now - last) / MicrosPerSecond == days * SecondsPerDay + rest / MicrosPerSecond;
    assert ElapsedSeconds(last, now) == rest / MicrosPerSecond;
  }

  /**
   * A call made between 30 s and one day after a whole number of days since
   * the last one let through is admitted.
   */
  lemma AdmittedAfterCooldown(cooldowns: map<nat, int>, user: nat, last: int, now: int, days: nat)
    requires CooldownSeconds * MicrosPerSecond <= now - last - days * SecondsPerDay * MicrosPerSecond
    requires now - last - days * SecondsPerDay * MicrosPerSecond < SecondsPerDay * MicrosPerSecond
    ensures CooldownWait(cooldowns[user := last], user, now) == None
  {
    ElapsedSecondsOfDay(last, now, days);
  }

  /**
   * Because `timedelta.seconds` drops whole days, a call made within 30 s
   * of a whole number of days after the last admitted one is refused again.
   */
  lemma RefusedAgainAfterWholeDays(cooldowns: map<nat, int>, user: nat, last: int, now: int, days: nat)
    requires 0 <= now - last - days * SecondsPerDay * MicrosPerSecond < CooldownSeconds * MicrosPerSecond
    ensures CooldownWait(cooldowns[user := last], user, now).Some?
  {
    var rest := now - last - days * SecondsPerDay * MicrosPerSecond;
    assert (now - last) / MicrosPerSecond == days * SecondsPerDay + rest / MicrosPerSecond;
    assert ElapsedSeconds(last, now) == rest / MicrosPerSecond;
  }
}

/** The relative `since` word of a proposal input (RFC 0017). */
module ReviewDelay {
  import opened Bytes

  // Bit 63 says relative, bits 62 and 61 the metric, the low 56 bits the value; the fields are written as quotients
  // and remainders.
  const RELATIVE_FLAG: nat := 0x8000_0000_0000_0000
  const TIMESTAMP_FLAG: nat := 0x4000_0000_0000_0000
  const METRIC_UNIT: nat := 0x2000_0000_0000_0000
  const VALUE_SIZE: nat := 0x0100_0000_0000_0000

  function SaturatingMul(a: nat, b: nat): u64 {
    if a * b > U64_MAX then U64_MAX else a * b
  }

  /** `encodeRelativeTimestampSince`: milliseconds to whole seconds, masked to 56 bits, with both flags. */
  function EncodeSince(durationMs: nat): u64 {
    RELATIVE_FLAG + TIMESTAMP_FLAG + (durationMs / 1000) % VALUE_SIZE
  }

  predicate IsRelative(since: u64) {
    (since / RELATIVE_FLAG) % 2 == 1
  }

  /** The two metric bits are exactly 10. */
  predicate IsTimestamp(since: u64) {
    (since / METRIC_UNIT) % 4 == 2
  }

  /** `verify_relative_since_timestamp` of governance-lock; false is ERR_REVIEW_WINDOW_NOT_MET. */
  predicate LockAcceptsSince(since: u64, minMs: u64) {
    if !IsRelative(since) then false
    else if !IsTimestamp(since) then false
    else SaturatingMul(since % VALUE_SIZE, 1000) >= minMs
  }

  /** `relative_timestamp_since_ms` of proposal-anchor; None is INVALID_RECLAIM_SINCE. */
  function AnchorSinceMs(since: u64): Option<u64> {
    if !IsRelative(since) || !IsTimestamp(since) then None
    else Some(SaturatingMul(since % VALUE_SIZE, 1000))
  }

  predicate AnchorAcceptsSince(since: u64, delayMs: u64) {
    AnchorSinceMs(since).Some? && AnchorSinceMs(since).value >= delayMs
  }

  /** The flags and the value of an encoded word are read back; no u64 duration overflows the value bits. */
  lemma EncodedSinceFields(durationMs: u64)
    ensures IsRelative(EncodeSince(durationMs)) && IsTimestamp(EncodeSince(durationMs))
    ensures EncodeSince(durationMs) % VALUE_SIZE == durationMs / 1000
  {
    var sec := durationMs / 1000;
    assert sec < VALUE_SIZE;
    var since: nat := RELATIVE_FLAG + TIMESTAMP_FLAG + sec;
    assert since / RELATIVE_FLAG == 1;
    assert since / METRIC_UNIT == 6;
    assert since == 192 * VALUE_SIZE + sec;
  }

  /**
   * A word built for `m` passes the check for delay `d` in both scripts iff d <= 1000 * (m / 1000);
   * so a delay passes its own check exactly when it is a whole number of seconds.
   */
  lemma BuiltDelayAccepted(m: u64, d: u64)
    ensures LockAcceptsSince(EncodeSince(m), d) <==> d <= 1000 * (m / 1000)
    ensures AnchorAcceptsSince(EncodeSince(m), d) <==> d <= 1000 * (m / 1000)
    ensures LockAcceptsSince(EncodeSince(m), m) <==> m % 1000 == 0
  {
    hide EncodeSince, IsRelative, IsTimestamp;
    EncodedSinceFields(m);
    assert m == 1000 * (m / 1000) + m % 1000;
  }

  /** A relative word in seconds, three top bits 110, that counts at least this many milliseconds. */
  predicate RelativeSeconds(since: u64, d: u64) {
    0xC000_0000_0000_0000 <= since < 0xE000_0000_0000_0000 && d <= 1000 * (since % 0x0100_0000_0000_0000)
  }

  /**
   * The words a script accepts for a delay, in numbers: those whose three top bits are 110, relative with the metric of
   * seconds, and whose low 56 bits count seconds enough. No absolute word, block number or epoch is among them.
   */
  lemma AcceptedWords(since: u64, d: u64)
    ensures LockAcceptsSince(since, d) <==> RelativeSeconds(since, d)
    ensures LockAcceptsSince(since, d)
       <==> 0xC000_0000_0000_0000 <= since < 0xE000_0000_0000_0000 && d <= 1000 * (since % 0x0100_0000_0000_0000)
    ensures AnchorAcceptsSince(since, d)
       <==> 0xC000_0000_0000_0000 <= since < 0xE000_0000_0000_0000 && d <= 1000 * (since % 0x0100_0000_0000_0000)
  {
    TopBits(since);
  }

  /** The two flag tests single out one eighth of the words. */
  lemma TopBits(since: u64)
    ensures IsRelative(since) && IsTimestamp(since) <==> 0xC000_0000_0000_0000 <= since < 0xE000_0000_0000_0000
  {
    var m := since / METRIC_UNIT;
    assert m * METRIC_UNIT <= since < (m + 1) * METRIC_UNIT && m < 8;
    assert IsRelative(since) <==> m >= 4;
    assert IsTimestamp(since) <==> m == 2 || m == 6;
  }

  /** What the reader of a since word gives back: seconds in milliseconds, capped, and nothing for any other word. */
  lemma AnchorReads(since: u64)
    ensures AnchorSinceMs(since).Some? <==> 0xC000_0000_0000_0000 <= since < 0xE000_0000_0000_0000
    ensures AnchorSinceMs(since).Some? ==>
              var ms := 1000 * (since % 0x0100_0000_0000_0000);
              AnchorSinceMs(since).value == if ms > 0xFFFF_FFFF_FFFF_FFFF then 0xFFFF_FFFF_FFFF_FFFF else ms
  {
    hide IsRelative, IsTimestamp;
    TopBits(since);
  }

  /** Both scripts accept the same words for the same delay. */
  lemma SameWords(since: u64, delayMs: u64)
    ensures LockAcceptsSince(since, delayMs) <==> AnchorAcceptsSince(since, delayMs)
  {
  }
}

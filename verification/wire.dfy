/** The 48-byte NTP packets the client exchanges with its server: the fixed
    request it sends and the transmit-timestamp seconds it reads from a
    reply (packet header layout of section 7.3 of RFC 5905). */
module Wire {

  import opened Word
  import Calendar

  const PACKET_SIZE: int := 48
  /** Seconds from the NTP prime epoch (1900-01-01) to the Unix epoch
      (1970-01-01), section 6 of RFC 5905. */
  const SEVENTY_YEARS: U32 := 2208988800

  type Packet = p: seq<Byte> | |p| == PACKET_SIZE witness seq(PACKET_SIZE, _ => 0)

  /** The three header fields packed into byte 0. */
  function LeapIndicator(p: Packet): int { p[0] / 64 }
  function Version(p: Packet): int { p[0] / 8 % 8 }
  function Mode(p: Packet): int { p[0] % 8 }

  /** The client request that `init` builds once and sends on every sync. */
  function Request(): (r: Packet)
    ensures LeapIndicator(r) == 3 && Version(r) == 4 && Mode(r) == 3
    ensures r[1] == 0 && r[2] == 6 && r[3] == 0xEC
    ensures r[12..16] == [49, 0x4E, 49, 52]
    ensures forall i | 0 <= i < PACKET_SIZE && (4 <= i < 12 || 16 <= i) :: r[i] == 0
  {
    [0xE3, 0, 6, 0xEC] + seq(8, _ => 0) + [49, 0x4E, 49, 52] + seq(32, _ => 0)
  }

  /** The reference identifier of the request spells "1N14". */
  lemma RequestReferenceTag()
    ensures Request()[12..16] == [('1' as int), ('N' as int), ('1' as int), ('4' as int)]
  {
  }

  /** The transmit-timestamp seconds of a reply, read big-endian. */
  function TransmitSeconds(p: Packet): (ts: U32)
    ensures ts == 0 <==> p[40..44] == [0, 0, 0, 0]
    ensures ToBigEndian(ts) == p[40..44]
  {
    assert p[40..44] == [p[40], p[41], p[42], p[43]];
    BigEndianZero(p[40], p[41], p[42], p[43]);
    ToBigEndianOfBigEndian(p[40], p[41], p[42], p[43]);
    BigEndian(p[40], p[41], p[42], p[43])
  }

  /** `p` with its transmit-timestamp seconds replaced by `ts`, as a server
      fills them in. */
  function WithTransmitSeconds(p: Packet, ts: U32): (q: Packet)
    ensures q[..40] == p[..40] && q[44..] == p[44..]
  {
    p[..40] + ToBigEndian(ts) + p[44..]
  }

  /** Reading the transmit seconds back gives what the server wrote. */
  lemma TransmitSecondsRoundTrip(p: Packet, ts: U32)
    ensures TransmitSeconds(WithTransmitSeconds(p, ts)) == ts
  {
    var q := WithTransmitSeconds(p, ts);
    var b := ToBigEndian(ts);
    assert q[40] == b[0] && q[41] == b[1] && q[42] == b[2] && q[43] == b[3];
  }

  /** NTP seconds to Unix seconds: `ntpTime - SEVENTYYEARS` on `uint32_t`. */
  function ToUnix(ntpSeconds: U32): (u: U32)
    ensures Add32(u, SEVENTY_YEARS) == ntpSeconds
    ensures ntpSeconds >= SEVENTY_YEARS ==> u == ntpSeconds - SEVENTY_YEARS
  {
    Sub32(ntpSeconds, SEVENTY_YEARS)
  }

  /** The epoch constant is the calendar distance from 1900-01-01 to
      1970-01-01. */
  lemma SeventyYearsIsEpochGap()
    ensures Calendar.Seconds(Calendar.Civil(1970, 0, 1, 0, 0, 0, 4))
      - Calendar.Seconds(Calendar.Civil(1900, 0, 1, 0, 0, 0, 1)) == SEVENTY_YEARS
  {
  }
}

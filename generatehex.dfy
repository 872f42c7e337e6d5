/** `generate_hex_data.py`: buffers of random bytes tagged with their CRC, as the
    script writes them in hex to standard output. Its `crc16` and `verify_data`
    are the copies modelled in `DetectHex`. */
module GenerateHex {
  import opened PyBytes
  import opened Crc
  import HexHunter
  import DetectHex

  /** `gen_random_data` of the script, with the random body as input. The
      script's guard accepts `crc16(body, 0, len(body))` for every body, the
      empty one included, so the call never fails. */
  method GenRandomData(body: seq<byte>, order: Endianness) returns (data: seq<byte>)
    ensures data == HexHunter.Tagged(body, order)
  {
    assert body != [] ==> Window(body, 0, |body|) == body;
    var checksum := DetectHex.Crc16(Some(body), 0, |body|);
    assert checksum == Ok(Checksum(body));
    data := body;
    data := data + ToBytes2(checksum.value, order);
  }

  /** The tag is the low byte then the high byte of the CRC on a little-endian
      platform, and the reverse on a big-endian one. */
  lemma TagLayout(body: seq<byte>, order: Endianness)
    ensures var t := HexHunter.Tagged(body, order)[|body|..]; var c := Checksum(body);
      t == match order
        case Little => [c % 0x100, c / 0x100]
        case Big => [c / 0x100, c % 0x100]
  {
    var t := HexHunter.Tagged(body, order);
    assert t[|body|..] == ToBytes2(Checksum(body), order);
  }

  /** With no body the output is the CRC of nothing, `b"\xff\xff"`. */
  lemma EmptyBody(order: Endianness)
    ensures HexHunter.Tagged([], order) == [0xFF, 0xFF]
  {
    DetectHex.ToBytes2FFFF(order);
  }

  /** The script's own `verify_data` accepts every buffer it generates, so its
      exit with status -1 is never reached. */
  lemma GeneratedVerifies(body: seq<byte>, order: Endianness)
    ensures DetectHex.VerifyData(HexHunter.Tagged(body, order), order) == Ok(true)
  {
    var t := HexHunter.Tagged(body, order);
    DetectHex.VerifyDataContract(t, order);
    if body == [] {
      EmptyBody(order);
    } else {
      HexHunter.GeneratedVerifies(body, order);
    }
  }

  /** Any other two bytes in place of the tag make `verify_data` fail. */
  lemma TamperedTagRejected(body: seq<byte>, tag: seq<byte>, order: Endianness)
    requires |tag| == 2 && tag != ToBytes2(Checksum(body), order)
    ensures DetectHex.VerifyData(body + tag, order) == Ok(false)
  {
    DetectHex.VerifyDataContract(body + tag, order);
    if body == [] {
      assert body + tag == tag;
      DetectHex.ToBytes2FFFF(order);
    } else {
      HexHunter.TamperedTagRejected(body, tag, order);
    }
  }

  /** A generated buffer, written in hex after input that leaves the scanner's
      buffer empty and followed by any byte outside the lowercase hex alphabet,
      is reported as found, with the next count and the length of the buffer,
      provided its hex run is longer than the threshold. */
  lemma FindsGenerated(p: seq<byte>, body: seq<byte>, x: byte, threshold: nat, order: Endianness)
    requires DetectHex.Scan(p, threshold, order).run == []
    requires !HexHunter.IsHexCharLower([x])
    requires 2 * (|body| + 2) > threshold
    ensures DetectHex.Scan(p + HexHunter.EncodeHex(HexHunter.Tagged(body, order)) + [x], threshold, order).reports
      == DetectHex.Scan(p, threshold, order).reports
       + [DetectHex.Found(DetectHex.Scan(p, threshold, order).found + 1, |body| + 2,
                          HexHunter.EncodeHex(HexHunter.Tagged(body, order)))]
  {
    var t := HexHunter.Tagged(body, order);
    HexHunter.EncodeHexRoundTrip(t);
    GeneratedVerifies(body, order);
    var hex := HexHunter.EncodeHex(t);
    DetectHex.FoundAtOnce(hex, t, threshold, DetectHex.Scan(p, threshold, order).found, order);
    DetectHex.FindsRun(p, hex, |t|, x, threshold, order);
  }

  /** A generated buffer at the very end of the input, as the script's last
      buffer is written, is never reported. */
  lemma TrailingPayloadMissed(p: seq<byte>, body: seq<byte>, threshold: nat, order: Endianness)
    ensures var hex := HexHunter.EncodeHex(HexHunter.Tagged(body, order));
      DetectHex.Scan(p + hex, threshold, order).reports == DetectHex.Scan(p, threshold, order).reports &&
      DetectHex.Scan(p + hex, threshold, order).found == DetectHex.Scan(p, threshold, order).found
  {
    DetectHex.PendingRunNotValidated(p, HexHunter.EncodeHex(HexHunter.Tagged(body, order)), threshold, order);
  }
}

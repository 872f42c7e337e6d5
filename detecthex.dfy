/** `detect_hex_data.py`: its own copy of `crc16` and `verify_data`, whose
    argument guard differs from the package's, and the scanner of its main
    block, which collects runs of lowercase hex digits from standard input and
    reports the runs that decode to a buffer carrying a valid CRC tag.

    `generate_hex_data.py` holds textually the same `crc16` and `verify_data`;
    they are modelled once, here. */
module DetectHex {
  import opened PyBytes
  import opened Crc
  import HexHunter

  // crc16 and verify_data of the scripts

  /** The guard of this copy of `crc16`. Python's `and` binds tighter than `or`,
      so the last two comparisons form a single alternative. */
  predicate Crc16Rejects(data: Option<seq<byte>>, offset: int, length: int)
  {
    data.None? || offset < 0 || (offset > |data.value| - 1 && offset + length > |data.value|)
  }

  /** The value of this copy's `crc16(data, offset, length)`. A window the guard
      lets through may run past the end of `data`; the loop then raises
      IndexError when it reaches the first missing byte. */
  function Crc16Of(data: Option<seq<byte>>, offset: int, length: int): Result<nat>
  {
    if Crc16Rejects(data, offset, length) then Err(ValueError)
    else if length > 0 && offset + length > |data.value| then Err(IndexError)
    else Ok(Checksum(Window(data.value, offset, length)))
  }

  method Crc16(data: Option<seq<byte>>, offset: int, length: int) returns (r: Result<nat>)
    ensures r == Crc16Of(data, offset, length)
  {
    if data.None? || offset < 0 || (offset > |data.value| - 1 && offset + length > |data.value|) {
      return Err(ValueError);
    }
    r := Crc16Loop(data.value, offset, length);
  }

  /** Which calls raise which error, and what the others return. */
  lemma Crc16Contract(data: Option<seq<byte>>, offset: int, length: int)
    ensures Crc16Of(data, offset, length) == Err(ValueError) <==>
      data.None? || offset < 0 || (offset >= |data.value| && offset + length > |data.value|)
    ensures Crc16Of(data, offset, length) == Err(IndexError) <==>
      data.Some? && 0 <= offset < |data.value| && offset + length > |data.value|
    ensures Crc16Of(data, offset, length).Ok? ==>
      Crc16Of(data, offset, length).value < 0x10000 &&
      (length <= 0 ==> Crc16Of(data, offset, length).value == 0xFFFF) &&
      (length > 0 ==> Crc16Of(data, offset, length).value == Checksum(data.value[offset..offset + length]))
  {
  }

  /** Every call this guard rejects, the package's guard rejects too. */
  lemma RejectsOnlyWhereMainDoes(data: Option<seq<byte>>, offset: int, length: int)
    ensures Crc16Rejects(data, offset, length) ==> HexHunter.Crc16Rejects(data, offset, length)
  {
  }

  /** Where the package's guard lets a call through, both copies return the same value. */
  lemma AgreesWithMain(data: Option<seq<byte>>, offset: int, length: int)
    requires !HexHunter.Crc16Rejects(data, offset, length)
    ensures Crc16Of(data, offset, length) == HexHunter.Crc16Of(data, offset, length)
  {
  }

  /** The calls only the package rejects: an empty window at or past the end
      returns 0xFFFF, and a window that runs past the end raises IndexError. */
  lemma DiffersFromMain(data: Option<seq<byte>>, offset: int, length: int)
    requires HexHunter.Crc16Rejects(data, offset, length) && !Crc16Rejects(data, offset, length)
    ensures Crc16Of(data, offset, length) ==
      if length > 0 && offset + length > |data.value| then Err(IndexError) else Ok(0xFFFF)
  {
  }

  /** `crc16(b"", 0, 0)` returns 0xFFFF here and raises in the package. */
  lemma EmptyDataAccepted()
    ensures Crc16Of(Some([]), 0, 0) == Ok(0xFFFF)
    ensures HexHunter.Crc16Of(Some([]), 0, 0) == Err(ValueError)
  {
  }

  /** This copy's `verify_data`. */
  function VerifyData(data: seq<byte>, order: Endianness): Result<bool>
  {
    match Crc16Of(Some(SliceTo(data, -2)), 0, |data| - 2)
    case Err(e) => Err(e)
    case Ok(c) => Ok(SliceFrom(data, -2) == ToBytes2(c, order))
  }

  lemma ToBytes2FFFF(order: Endianness)
    ensures ToBytes2(0xFFFF, order) == [0xFF, 0xFF]
  {
  }

  lemma VerifyDataTotal(data: seq<byte>, order: Endianness)
    ensures VerifyData(data, order) == Ok(true) || VerifyData(data, order) == Ok(false)
  {
    VerifyDataContract(data, order);
  }

  /** Unlike the package's `verify_data`, this one never raises. Inputs of fewer
      than two bytes are rejected, a two-byte input is accepted exactly when it is
      `b"\xff\xff"` (the CRC of nothing), and longer inputs get the package's answer. */
  lemma VerifyDataContract(data: seq<byte>, order: Endianness)
    ensures VerifyData(data, order).Ok?
    ensures |data| < 2 ==> VerifyData(data, order) == Ok(false)
    ensures |data| == 2 ==> VerifyData(data, order) == Ok(data == [0xFF, 0xFF])
    ensures |data| > 2 ==> VerifyData(data, order) == HexHunter.VerifyData(data, order)
  {
    if |data| <= 2 {
      assert SliceTo(data, -2) == [];
      assert SliceFrom(data, -2) == data;
      ToBytes2FFFF(order);
    } else {
      AgreesWithMain(Some(SliceTo(data, -2)), 0, |data| - 2);
    }
  }

  // The scanner of the main block

  /** One line the scanner prints: a run that decoded and verified (with the
      running count and the decoded length), one that decoded and failed
      verification, or one that did not decode. */
  datatype Report =
    | Found(count: nat, dataLength: nat, run: seq<byte>)
    | Failed(dataLength: nat, run: seq<byte>)
    | DecodeError(run: seq<byte>)

  /** The reports written and the count reached by one shrink loop. */
  datatype Closing = Closing(reports: seq<Report>, found: nat)

  /** The shrink loop run on the buffered `run` when a byte outside the
      lowercase hex alphabet arrives: while the run is longer than `threshold`,
      decode it; on a decoding error drop its last byte and try again, otherwise
      report the verdict of `verify_data` and stop. */
  function Close(run: seq<byte>, threshold: nat, found: nat, order: Endianness): Closing
    decreases |run|
  {
    if |run| <= threshold then Closing([], found)
    else match FromHex(run)
      case Err(_) =>
        var rest := Close(run[..|run| - 1], threshold, found, order);
        Closing([DecodeError(run)] + rest.reports, rest.found)
      case Ok(data) =>
        if VerifyData(data, order) == Ok(true) then Closing([Found(found + 1, |data|, run)], found + 1)
        else Closing([Failed(|data|, run)], found)
  }

  /** The state the scanner keeps across bytes: `hex_string`, `found`, and the
      reports written so far. */
  datatype ScanState = ScanState(run: seq<byte>, found: nat, reports: seq<Report>)

  function Feed(st: ScanState, b: byte, threshold: nat, order: Endianness): ScanState
  {
    if HexHunter.IsHexCharLower([b]) then st.(run := st.run + [b])
    else
      var c := Close(st.run, threshold, st.found, order);
      ScanState([], c.found, st.reports + c.reports)
  }

  function ScanFrom(st: ScanState, input: seq<byte>, threshold: nat, order: Endianness): ScanState
  {
    if input == [] then st
    else Feed(ScanFrom(st, input[..|input| - 1], threshold, order), input[|input| - 1], threshold, order)
  }

  /** The scanner's state after the bytes of `input`, from an empty buffer. */
  function Scan(input: seq<byte>, threshold: nat, order: Endianness): ScanState
  {
    ScanFrom(ScanState([], 0, []), input, threshold, order)
  }

  /** The chunks before the first empty read. */
  function FirstEmpty(chunks: seq<seq<byte>>): (n: nat)
    ensures n <= |chunks|
    ensures forall i | 0 <= i < n :: chunks[i] != []
    ensures n < |chunks| ==> chunks[n] == []
  {
    if chunks == [] || chunks[0] == [] then 0 else 1 + FirstEmpty(chunks[1..])
  }

  function Flatten(chunks: seq<seq<byte>>): seq<byte>
  {
    if chunks == [] then [] else Flatten(chunks[..|chunks| - 1]) + chunks[|chunks| - 1]
  }

  /** The bytes the main block consumes when successive reads of standard
      input return `chunks`: everything before the first empty read. */
  function Received(chunks: seq<seq<byte>>): seq<byte>
  {
    Flatten(chunks[..FirstEmpty(chunks)])
  }

  /** The shrink loop of the main block on the buffered run: the reports it
      prints and the new count. */
  method ShrinkRun(run: seq<byte>, threshold: nat, found: nat, order: Endianness)
    returns (reports: seq<Report>, found': nat)
    ensures Closing(reports, found') == Close(run, threshold, found, order)
  {
    ghost var goal := Close(run, threshold, found, order);
    var hexString := run;
    reports := [];
    found' := found;
    while |hexString| > threshold
      invariant goal.reports == reports + Close(hexString, threshold, found', order).reports
      invariant goal.found == Close(hexString, threshold, found', order).found
      decreases |hexString|
    {
      var decoded := FromHex(hexString);
      if decoded.Ok? {
        KeepVerdict(hexString, threshold, found', order);
        if VerifyData(decoded.value, order) == Ok(true) {
          found' := found' + 1;
          reports := reports + [Found(found', |decoded.value|, hexString)];
        } else {
          reports := reports + [Failed(|decoded.value|, hexString)];
        }
        return;
      }
      DropLast(reports, hexString, threshold, found', order);
      reports := reports + [DecodeError(hexString)];
      hexString := hexString[..|hexString| - 1];
    }
  }

  /** A run longer than the threshold that decodes is reported with the verdict
      of `verify_data`, and the loop stops. */
  lemma KeepVerdict(run: seq<byte>, threshold: nat, found: nat, order: Endianness)
    requires |run| > threshold && FromHex(run).Ok?
    ensures Close(run, threshold, found, order) ==
      if VerifyData(FromHex(run).value, order) == Ok(true)
      then Closing([Found(found + 1, |FromHex(run).value|, run)], found + 1)
      else Closing([Failed(|FromHex(run).value|, run)], found)
  {
  }

  /** A run longer than the threshold that does not decode is reported and
      shortened by one byte. */
  lemma DropLast(done: seq<Report>, run: seq<byte>, threshold: nat, found: nat, order: Endianness)
    requires |run| > threshold && FromHex(run).Err?
    ensures done + Close(run, threshold, found, order).reports
      == (done + [DecodeError(run)]) + Close(run[..|run| - 1], threshold, found, order).reports
    ensures Close(run, threshold, found, order).found == Close(run[..|run| - 1], threshold, found, order).found
  {
    var rest := Close(run[..|run| - 1], threshold, found, order);
    assert Close(run, threshold, found, order).reports == [DecodeError(run)] + rest.reports;
    assert done + ([DecodeError(run)] + rest.reports) == (done + [DecodeError(run)]) + rest.reports;
  }

  /** The main block: read chunks until one is empty, and feed their bytes one by
      one. Its final state is that of `Scan` over the concatenated bytes, so how
      the input is cut into chunks does not matter. */
  method ScanHexStream(chunks: seq<seq<byte>>, threshold: nat, order: Endianness)
    returns (reports: seq<Report>, found: nat, hexString: seq<byte>)
    ensures ScanState(hexString, found, reports) == Scan(Received(chunks), threshold, order)
  {
    hexString := [];
    found := 0;
    reports := [];
    var k := 0;
    while k < |chunks|
      invariant 0 <= k <= FirstEmpty(chunks)
      invariant ScanState(hexString, found, reports) == Scan(Flatten(chunks[..k]), threshold, order)
      decreases |chunks| - k
    {
      var buffer := chunks[k];
      if buffer == [] {
        break;
      }
      ScanChunk(chunks, k, threshold, order);
      reports, found, hexString := FeedBuffer(reports, found, hexString, buffer, threshold, order);
      k := k + 1;
    }
    assert k == FirstEmpty(chunks);
  }

  /** Reading one more chunk continues the scan over its bytes. */
  lemma ScanChunk(chunks: seq<seq<byte>>, k: nat, threshold: nat, order: Endianness)
    requires k < |chunks|
    ensures Scan(Flatten(chunks[..k + 1]), threshold, order) ==
      ScanFrom(Scan(Flatten(chunks[..k]), threshold, order), chunks[k], threshold, order)
  {
    assert chunks[..k + 1][..k] == chunks[..k];
    ScanFromAppend(ScanState([], 0, []), Flatten(chunks[..k]), chunks[k], threshold, order);
  }

  /** The inner loop of the main block: feed the bytes of one chunk, in order. */
  method FeedBuffer(reports: seq<Report>, found: nat, hexString: seq<byte>, buffer: seq<byte>,
                    threshold: nat, order: Endianness)
    returns (reports': seq<Report>, found': nat, hexString': seq<byte>)
    ensures ScanState(hexString', found', reports') ==
      ScanFrom(ScanState(hexString, found, reports), buffer, threshold, order)
  {
    reports', found', hexString' := reports, found, hexString;
    var j := 0;
    while j < |buffer|
      invariant 0 <= j <= |buffer|
      invariant ScanState(hexString', found', reports') ==
        ScanFrom(ScanState(hexString, found, reports), buffer[..j], threshold, order)
    {
      var b := buffer[j];
      ghost var st := ScanState(hexString', found', reports');
      if HexHunter.IsHexCharLower([b]) {
        hexString' := hexString' + [b];
      } else {
        var printed;
        printed, found' := ShrinkRun(hexString', threshold, found', order);
        reports' := reports' + printed;
        hexString' := [];
      }
      assert ScanState(hexString', found', reports') == Feed(st, b, threshold, order);
      assert buffer[..j + 1][..j] == buffer[..j];
      j := j + 1;
    }
    assert buffer[..j] == buffer;
  }

  // Properties of one shrink loop

  /** The number of runs reported as found. */
  function CountFound(reports: seq<Report>): nat
  {
    if reports == [] then 0
    else CountFound(reports[..|reports| - 1]) + (if reports[|reports| - 1].Found? then 1 else 0)
  }

  lemma {:induction false} CountFoundAppend(a: seq<Report>, b: seq<Report>)
    ensures CountFound(a + b) == CountFound(a) + CountFound(b)
  {
    if b == [] {
      assert a + b == a;
    } else {
      assert (a + b)[..|a + b| - 1] == a + b[..|b| - 1];
      CountFoundAppend(a, b[..|b| - 1]);
    }
  }

  /** The shape of one shrink loop: the `i`-th report is about the run with its
      last `i` bytes dropped, every report but the last is a decoding error, a
      verdict ends the loop, and a loop that ends on a decoding error has reached
      the threshold. Every report is about a run longer than the threshold, and
      the count grows by one for a found run and by nothing otherwise. */
  lemma {:induction false} CloseShape(run: seq<byte>, threshold: nat, found: nat, order: Endianness)
    ensures var c := Close(run, threshold, found, order);
      (forall i | 0 <= i < |c.reports| :: i <= |run| && c.reports[i].run == run[..|run| - i]) &&
      (forall i | 0 <= i < |c.reports| :: |c.reports[i].run| > threshold) &&
      (forall i | 0 <= i < |c.reports| - 1 :: c.reports[i].DecodeError?) &&
      (c.reports != [] && c.reports[|c.reports| - 1].DecodeError? ==>
         |c.reports[|c.reports| - 1].run| == threshold + 1) &&
      (c.reports == [] <==> |run| <= threshold) &&
      c.found == found + CountFound(c.reports) && CountFound(c.reports) <= 1
  {
    CloseRuns(run, threshold, found, order);
    CloseErrors(run, threshold, found, order);
    CloseCount(run, threshold, found, order);
  }

  lemma {:induction false} CloseRuns(run: seq<byte>, threshold: nat, found: nat, order: Endianness)
    ensures forall i | 0 <= i < |Close(run, threshold, found, order).reports| ::
      i <= |run| && |Close(run, threshold, found, order).reports[i].run| > threshold &&
      Close(run, threshold, found, order).reports[i].run == run[..|run| - i]
    decreases |run|
  {
    var c := Close(run, threshold, found, order);
    if |run| > threshold && FromHex(run).Err? {
      var r' := run[..|run| - 1];
      var rest := Close(r', threshold, found, order);
      CloseRuns(r', threshold, found, order);
      assert c.reports == [DecodeError(run)] + rest.reports;
      forall i | 0 < i < |c.reports|
        ensures i <= |run| && |c.reports[i].run| > threshold && c.reports[i].run == run[..|run| - i]
      {
        var j := i - 1;
        assert c.reports[i] == rest.reports[j];
        assert r'[..|r'| - j] == run[..|run| - i];
      }
    }
  }

  lemma {:induction false} CloseErrors(run: seq<byte>, threshold: nat, found: nat, order: Endianness)
    ensures var c := Close(run, threshold, found, order);
      (forall i | 0 <= i < |c.reports| - 1 :: c.reports[i].DecodeError?) &&
      (c.reports != [] && c.reports[|c.reports| - 1].DecodeError? ==>
         |c.reports[|c.reports| - 1].run| == threshold + 1) &&
      (c.reports == [] <==> |run| <= threshold)
    decreases |run|
  {
    var c := Close(run, threshold, found, order);
    if |run| > threshold && FromHex(run).Err? {
      var r' := run[..|run| - 1];
      var rest := Close(r', threshold, found, order);
      CloseErrors(r', threshold, found, order);
      assert c.reports == [DecodeError(run)] + rest.reports;
      forall i | 0 < i < |c.reports| - 1
        ensures c.reports[i].DecodeError?
      {
        assert c.reports[i] == rest.reports[i - 1];
      }
      if rest.reports != [] {
        assert c.reports[|c.reports| - 1] == rest.reports[|rest.reports| - 1];
      }
    }
  }

  lemma {:induction false} CloseCount(run: seq<byte>, threshold: nat, found: nat, order: Endianness)
    ensures var c := Close(run, threshold, found, order);
      c.found == found + CountFound(c.reports) && CountFound(c.reports) <= 1
    decreases |run|
  {
    if |run| > threshold && FromHex(run).Err? {
      var r' := run[..|run| - 1];
      var rest := Close(r', threshold, found, order);
      CloseCount(r', threshold, found, order);
      CountFoundAppend([DecodeError(run)], rest.reports);
      assert CountFound([DecodeError(run)]) == 0 by {
        assert [DecodeError(run)][..0] == [];
      }
    }
  }

  /** What a report of a shrink loop entered with count `found` says about its
      run: a decoding error means `bytes.fromhex` fails on it, a found run
      decodes to a buffer `verify_data` accepts and is numbered after `found`,
      and a failed run decodes to one it rejects. */
  predicate Truthful(r: Report, found: nat, order: Endianness)
  {
    match FromHex(r.run)
    case Err(_) => r.DecodeError?
    case Ok(data) =>
      (r.Found? && r.count == found + 1 && VerifyData(data, order) == Ok(true)) ||
      (r.Failed? && VerifyData(data, order) == Ok(false))
  }

  lemma {:induction false} CloseTruthful(run: seq<byte>, threshold: nat, found: nat, order: Endianness)
    ensures forall r | r in Close(run, threshold, found, order).reports :: Truthful(r, found, order)
    decreases |run|
  {
    if |run| > threshold {
      if FromHex(run).Err? {
        CloseTruthful(run[..|run| - 1], threshold, found, order);
      } else {
        VerdictTruthful(run, threshold, found, order);
      }
    }
  }

  lemma VerdictTruthful(run: seq<byte>, threshold: nat, found: nat, order: Endianness)
    requires |run| > threshold && FromHex(run).Ok?
    ensures forall r | r in Close(run, threshold, found, order).reports :: Truthful(r, found, order)
  {
    VerifyDataTotal(FromHex(run).value, order);
  }

  /** For a run of hex digits the decoding fails only on odd length, so at most
      one byte is ever dropped: only the first report can be a decoding error. */
  lemma HexRunDropsAtMostOne(run: seq<byte>, threshold: nat, found: nat, order: Endianness)
    requires forall i | 0 <= i < |run| :: IsHexDigit(run[i])
    ensures |Close(run, threshold, found, order).reports| <= 2
    ensures forall i | 1 <= i < |Close(run, threshold, found, order).reports| ::
      !Close(run, threshold, found, order).reports[i].DecodeError?
    ensures (Close(run, threshold, found, order).reports != [] &&
             Close(run, threshold, found, order).reports[0].DecodeError?) ==> |run| % 2 == 1
  {
    if |run| > threshold && FromHex(run).Err? {
      var r' := run[..|run| - 1];
      DropLast([], run, threshold, found, order);
      OddHexRun(run);
      if |r'| > threshold {
        KeepVerdict(r', threshold, found, order);
      }
    } else if |run| > threshold {
      KeepVerdict(run, threshold, found, order);
    }
  }

  /** A run of hex digits that does not decode has odd length, and without its
      last byte it decodes. */
  lemma OddHexRun(run: seq<byte>)
    requires forall i | 0 <= i < |run| :: IsHexDigit(run[i])
    requires FromHex(run).Err?
    ensures |run| % 2 == 1 && FromHex(run[..|run| - 1]).Ok?
  {
    assert |run| % 2 == 1;
    var r' := run[..|run| - 1];
    HexPrefix(run, |run| - 1);
    EvenBelowOdd(|run|);
    assert |r'| % 2 == 0;
  }

  lemma EvenBelowOdd(n: nat)
    requires n % 2 == 1
    ensures (n - 1) % 2 == 0
  {
  }

  /** A prefix of a run of hex digits is a run of hex digits. */
  lemma HexPrefix(run: seq<byte>, n: nat)
    requires forall i | 0 <= i < |run| :: IsHexDigit(run[i])
    requires n <= |run|
    ensures forall i | 0 <= i < |run[..n]| :: IsHexDigit(run[..n][i])
  {
  }

  // Properties of the scan

  /** The buffered run: the longest all-lowercase-hex suffix of the input. */
  function TrailingRun(input: seq<byte>): seq<byte>
  {
    if input == [] || !HexHunter.IsHexCharLower([input[|input| - 1]]) then []
    else TrailingRun(input[..|input| - 1]) + [input[|input| - 1]]
  }

  lemma {:induction false} ScanFromAppend(st: ScanState, a: seq<byte>, b: seq<byte>, threshold: nat, order: Endianness)
    ensures ScanFrom(st, a + b, threshold, order) == ScanFrom(ScanFrom(st, a, threshold, order), b, threshold, order)
  {
    if b == [] {
      assert a + b == a;
    } else {
      var b', x := b[..|b| - 1], b[|b| - 1];
      assert a + b == (a + b') + [x];
      ScanFromAppend(st, a, b', threshold, order);
      ScanFromSnoc(st, a + b', x, threshold, order);
      ScanFromSnoc(ScanFrom(st, a, threshold, order), b', x, threshold, order);
      assert b == b' + [x];
    }
  }

  /** Scanning one more byte feeds it to the state reached so far. */
  lemma ScanFromSnoc(st: ScanState, s: seq<byte>, x: byte, threshold: nat, order: Endianness)
    ensures ScanFrom(st, s + [x], threshold, order) == Feed(ScanFrom(st, s, threshold, order), x, threshold, order)
  {
    assert (s + [x])[..|s|] == s;
  }

  /** Invariants of the scan: the buffer holds the trailing run of lowercase hex
      digits, every report is about a run longer than the threshold, and `found`
      counts the found reports. */
  lemma {:induction false} ScanInvariant(input: seq<byte>, threshold: nat, order: Endianness)
    ensures var st := Scan(input, threshold, order);
      st.run == TrailingRun(input) &&
      (forall i | 0 <= i < |st.reports| :: |st.reports[i].run| > threshold) &&
      st.found == CountFound(st.reports)
  {
    if input != [] {
      var prefix, b := input[..|input| - 1], input[|input| - 1];
      ScanInvariant(prefix, threshold, order);
      FeedKeepsAccounts(Scan(prefix, threshold, order), b, threshold, order);
    }
  }

  /** The report accounting of `ScanInvariant`, kept by every byte fed. */
  predicate Accounted(st: ScanState, threshold: nat)
  {
    (forall i | 0 <= i < |st.reports| :: |st.reports[i].run| > threshold) &&
    st.found == CountFound(st.reports)
  }

  lemma FeedKeepsAccounts(st: ScanState, b: byte, threshold: nat, order: Endianness)
    requires Accounted(st, threshold)
    ensures Accounted(Feed(st, b, threshold, order), threshold)
  {
    if !HexHunter.IsHexCharLower([b]) {
      var c := Close(st.run, threshold, st.found, order);
      CloseRuns(st.run, threshold, st.found, order);
      CloseCount(st.run, threshold, st.found, order);
      CountFoundAppend(st.reports, c.reports);
      LongRunsAppend(st.reports, c.reports, threshold);
    }
  }

  lemma LongRunsAppend(a: seq<Report>, b: seq<Report>, threshold: nat)
    requires forall i | 0 <= i < |a| :: |a[i].run| > threshold
    requires forall i | 0 <= i < |b| :: |b[i].run| > threshold
    ensures forall i | 0 <= i < |a + b| :: |(a + b)[i].run| > threshold
  {
    forall i | 0 <= i < |a + b|
      ensures |(a + b)[i].run| > threshold
    {
      if i >= |a| {
        assert (a + b)[i] == b[i - |a|];
      }
    }
  }

  /** Every byte of the buffered run is a lowercase hex digit. */
  lemma {:induction false} TrailingRunIsHex(input: seq<byte>)
    ensures forall i | 0 <= i < |TrailingRun(input)| :: IsHexDigit(TrailingRun(input)[i])
  {
    if input != [] && HexHunter.IsHexCharLower([input[|input| - 1]]) {
      TrailingRunIsHex(input[..|input| - 1]);
      HexHunter.HexLowerMembers(input[|input| - 1]);
    }
  }

  /** Each shrink loop the scanner runs drops at most one byte. */
  lemma ScanDropsAtMostOne(input: seq<byte>, b: byte, threshold: nat, order: Endianness)
    requires !HexHunter.IsHexCharLower([b])
    ensures var before := Scan(input, threshold, order).reports;
      var after := Scan(input + [b], threshold, order).reports;
      |before| <= |after| <= |before| + 2 && after[..|before|] == before &&
      forall i | |before| + 1 <= i < |after| :: !after[i].DecodeError?
  {
    var st := Scan(input, threshold, order);
    ScanInvariant(input, threshold, order);
    TrailingRunIsHex(input);
    HexRunDropsAtMostOne(st.run, threshold, st.found, order);
    ScanClosesRun(input, b, threshold, order);
    ReportsAppended(st.reports, Close(st.run, threshold, st.found, order).reports);
  }

  /** A byte outside the lowercase hex alphabet appends the reports of the
      shrink loop on the buffered run. */
  lemma ScanClosesRun(input: seq<byte>, b: byte, threshold: nat, order: Endianness)
    requires !HexHunter.IsHexCharLower([b])
    ensures Scan(input + [b], threshold, order).reports ==
      Scan(input, threshold, order).reports +
      Close(Scan(input, threshold, order).run, threshold, Scan(input, threshold, order).found, order).reports
  {
    ScanFromSnoc(ScanState([], 0, []), input, b, threshold, order);
  }

  /** Reports appended after `done`, of which only the first may be a decoding
      error. */
  lemma ReportsAppended(done: seq<Report>, more: seq<Report>)
    requires |more| <= 2 && forall i | 1 <= i < |more| :: !more[i].DecodeError?
    ensures |done| <= |done + more| <= |done| + 2 && (done + more)[..|done|] == done
    ensures forall i | |done| + 1 <= i < |done + more| :: !(done + more)[i].DecodeError?
  {
    assert forall i | |done| <= i < |done + more| :: (done + more)[i] == more[i - |done|];
  }

  /** Any byte outside the lowercase hex alphabet, an uppercase hex digit
      included, empties the buffer. */
  lemma NonLowerClosesRun(input: seq<byte>, b: byte, threshold: nat, order: Endianness)
    requires !HexHunter.IsHexCharLower([b])
    ensures Scan(input + [b], threshold, order).run == []
  {
    assert (input + [b])[..|input + [b]| - 1] == input;
  }

  /** Uppercase hex digits are hex digits the scanner does not collect. */
  lemma UppercaseClosesRun(input: seq<byte>, b: byte, threshold: nat, order: Endianness)
    requires 'A' as int <= b <= 'F' as int
    ensures HexHunter.IsHexChar([b]) && HexHunter.IsHexCharUpper([b])
    ensures Scan(input + [b], threshold, order).run == []
  {
    HexHunter.HexMembers(b);
    HexHunter.HexUpperMembers(b);
    HexHunter.HexLowerMembers(b);
    NonLowerClosesRun(input, b, threshold, order);
  }

  /** A run still buffered when the input ends is never decoded: appending
      lowercase hex digits changes neither the reports nor the count. */
  lemma {:induction false} PendingRunNotValidated(input: seq<byte>, tail: seq<byte>, threshold: nat, order: Endianness)
    requires forall i | 0 <= i < |tail| :: HexHunter.IsHexCharLower([tail[i]])
    ensures Scan(input + tail, threshold, order).reports == Scan(input, threshold, order).reports
    ensures Scan(input + tail, threshold, order).found == Scan(input, threshold, order).found
    ensures Scan(input + tail, threshold, order).run == Scan(input, threshold, order).run + tail
  {
    if tail == [] {
      assert input + tail == input;
    } else {
      var t' := tail[..|tail| - 1];
      PendingRunNotValidated(input, t', threshold, order);
      assert (input + tail)[..|input + tail| - 1] == input + t';
      assert (input + tail)[|input + tail| - 1] == tail[|tail| - 1];
      assert (Scan(input, threshold, order).run + t') + [tail[|tail| - 1]] == Scan(input, threshold, order).run + tail;
    }
  }

  /** A run of lowercase hex digits read with the buffer empty, then closed by
      any other byte, is handed whole to the shrink loop. */
  lemma RunThenClose(p: seq<byte>, run: seq<byte>, x: byte, threshold: nat, order: Endianness)
    requires Scan(p, threshold, order).run == []
    requires forall i | 0 <= i < |run| :: HexHunter.IsHexCharLower([run[i]])
    requires !HexHunter.IsHexCharLower([x])
    ensures Scan(p + run + [x], threshold, order).reports
      == Scan(p, threshold, order).reports + Close(run, threshold, Scan(p, threshold, order).found, order).reports
  {
    PendingRunNotValidated(p, run, threshold, order);
    assert [] + run == run;
    ScanClosesRun(p + run, x, threshold, order);
  }

  /** A run longer than the threshold that decodes to data `verify_data`
      accepts is reported found by the shrink loop, with the next count. */
  lemma FoundAtOnce(run: seq<byte>, data: seq<byte>, threshold: nat, found: nat, order: Endianness)
    requires |run| > threshold && FromHex(run) == Ok(data) && VerifyData(data, order) == Ok(true)
    ensures Close(run, threshold, found, order).reports == [Found(found + 1, |data|, run)]
  {
    KeepVerdict(run, threshold, found, order);
  }

  /** The same run, once the shrink loop is known to report it at its first
      attempt, adds exactly that one report to the scan. */
  lemma FindsRun(p: seq<byte>, run: seq<byte>, n: nat, x: byte, threshold: nat, order: Endianness)
    requires Scan(p, threshold, order).run == []
    requires forall i | 0 <= i < |run| :: HexHunter.IsHexCharLower([run[i]])
    requires !HexHunter.IsHexCharLower([x])
    requires Close(run, threshold, Scan(p, threshold, order).found, order).reports
      == [Found(Scan(p, threshold, order).found + 1, n, run)]
    ensures Scan(p + run + [x], threshold, order).reports
      == Scan(p, threshold, order).reports + [Found(Scan(p, threshold, order).found + 1, n, run)]
  {
    RunThenClose(p, run, x, threshold, order);
  }
}

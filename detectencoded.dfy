/** `detect_encoded_data.py`: the base64 error-correction rule and the driver
    that walks a fixed table of encodings, picks those the configuration asks
    for, and tags every hit of the scanner with the encoding's name.

    The scanner `find_encoded_data` and the byte tables `BASE_*_BYTES` are
    imported from `hex_hunter` but not defined in `hex_hunter/__init__.py`
    (detect_encoded_data.py:48-55), and the decoders come from the standard
    library, so they are named here and never interpreted: the scanner is a
    parameter. */
module DetectEncoded {
  import opened PyBytes

  // correct_base64_error

  /** `correct_base64_error`: drop the first byte if the input ends with `=`,
      otherwise drop the last one. */
  function CorrectBase64Error(encoded: seq<byte>): seq<byte>
  {
    if EndsWith(encoded, ['=' as int]) then SliceFrom(encoded, 1) else SliceTo(encoded, -1)
  }

  lemma CorrectBase64ErrorContract(encoded: seq<byte>)
    ensures var r := CorrectBase64Error(encoded);
      (encoded != [] && encoded[|encoded| - 1] == '=' as int ==> r == encoded[1..]) &&
      (encoded != [] && encoded[|encoded| - 1] != '=' as int ==> r == encoded[..|encoded| - 1]) &&
      (encoded == [] ==> r == []) &&
      (encoded != [] ==> |r| == |encoded| - 1)
  {
  }

  /** The result is a contiguous part of the input: a suffix or a prefix, and a
      trailing `=` survives whenever at least two bytes were given. */
  lemma CorrectionIsSlice(encoded: seq<byte>)
    ensures var r := CorrectBase64Error(encoded);
      (r == encoded[|encoded| - |r|..] || r == encoded[..|r|]) &&
      (|encoded| >= 2 && encoded[|encoded| - 1] == '=' as int ==> r != [] && r[|r| - 1] == '=' as int)
  {
    CorrectBase64ErrorContract(encoded);
  }

  // The encodings table

  /** The byte tables imported from the package. */
  datatype ByteTable = Base16BytesMC | Base32BytesMC | Base64Bytes | Base85Bytes

  /** The decoders: `b16decode`/`b32decode` with case folding, `b64decode`, `b85decode`. */
  datatype Decoder = B16DecodeCasefold | B32DecodeCasefold | B64Decode | B85Decode

  /** The error-correction functions; only one exists. */
  datatype Correction = CorrectBase64

  function Apply(c: Correction, encoded: seq<byte>): seq<byte>
  {
    match c
    case CorrectBase64 => CorrectBase64Error(encoded)
  }

  /** One entry of the `encodings` dictionary. */
  datatype Scheme = Scheme(name: string, validBytes: ByteTable, decoder: Decoder, correction: Option<Correction>)

  /** The `encodings` dictionary, in its insertion order. */
  function Encodings(): seq<Scheme>
  {
    [ Scheme("base16", Base16BytesMC, B16DecodeCasefold, None),
      Scheme("base32", Base32BytesMC, B32DecodeCasefold, None),
      Scheme("base64", Base64Bytes, B64Decode, Some(CorrectBase64)),
      Scheme("base85", Base85Bytes, B85Decode, None) ]
  }

  /** The visiting order is base16, base32, base64, base85, and only base64
      carries an error correction, `correct_base64_error`. */
  lemma EncodingsTable()
    ensures |Encodings()| == 4
    ensures Encodings()[0].name == "base16" && Encodings()[1].name == "base32"
    ensures Encodings()[2].name == "base64" && Encodings()[3].name == "base85"
    ensures forall i | 0 <= i < 4 :: Encodings()[i].correction.Some? <==> Encodings()[i].name == "base64"
    ensures forall i | 0 <= i < 4 && Encodings()[i].correction.Some? ::
      forall s :: Apply(Encodings()[i].correction.value, s) == CorrectBase64Error(s)
  {
  }

  // detect_encoded_data

  /** The keys of the JSON configuration that are read. */
  datatype Config = Config(encoding: Option<string>, inputFilename: Option<string>, threshold: Option<int>)

  /** One `(offset, data)` pair the scanner yields. */
  datatype Hit = Hit(offset: int, data: seq<byte>)

  /** One `(encoding, offset, data)` triple `detect_encoded_data` yields. */
  datatype Triple = Triple(encoding: string, offset: int, data: seq<byte>)

  /** What a consumer of the generator sees: the triples, then maybe an exception. */
  datatype Outcome = Outcome(yielded: seq<Triple>, error: Option<PyError>)

  /** `find_encoded_data` opened on the named file, with a threshold and a scheme. */
  type Scanner = (string, int, Scheme) -> seq<Hit>

  /** The filter of the loop. */
  predicate Selected(config: Config, name: string)
  {
    config.encoding.None? || config.encoding.value == "all" || config.encoding.value == name
  }

  function TagAll(name: string, hits: seq<Hit>): (r: seq<Triple>)
    ensures |r| == |hits|
    ensures forall i | 0 <= i < |hits| :: r[i] == Triple(name, hits[i].offset, hits[i].data)
  {
    if hits == [] then []
    else TagAll(name, hits[..|hits| - 1]) + [Triple(name, hits[|hits| - 1].offset, hits[|hits| - 1].data)]
  }

  /** One pass of the loop: nothing for an unselected encoding; for a selected
      one, KeyError when `input_filename` or `threshold` is missing, and
      otherwise the scanner's hits, tagged. */
  function Pass(config: Config, scan: Scanner, s: Scheme): Outcome
  {
    if !Selected(config, s.name) then Outcome([], None)
    else if config.inputFilename.None? || config.threshold.None? then Outcome([], Some(KeyError))
    else Outcome(TagAll(s.name, scan(config.inputFilename.value, config.threshold.value, s)), None)
  }

  /** The passes over `table`, in order, stopping at the first exception. */
  function DetectIn(config: Config, scan: Scanner, table: seq<Scheme>): Outcome
  {
    if table == [] then Outcome([], None)
    else
      var before := DetectIn(config, scan, table[..|table| - 1]);
      if before.error.Some? then before
      else
        var pass := Pass(config, scan, table[|table| - 1]);
        Outcome(before.yielded + pass.yielded, pass.error)
  }

  function Detect(config: Config, scan: Scanner): Outcome
  {
    DetectIn(config, scan, Encodings())
  }

  /** `detect_encoded_data`, run to completion: the generator's loop over the
      table and over each scanner's hits. */
  method DetectEncodedData(config: Config, scan: Scanner) returns (yielded: seq<Triple>, error: Option<PyError>)
    ensures Outcome(yielded, error) == Detect(config, scan)
  {
    var encodings := Encodings();
    yielded := [];
    error := None;
    var i := 0;
    while i < |encodings|
      invariant 0 <= i <= |encodings|
      invariant Outcome(yielded, None) == DetectIn(config, scan, encodings[..i])
    {
      var s := encodings[i];
      DetectInStep(config, scan, encodings, i);
      if config.encoding.None? || config.encoding.value == "all" || config.encoding.value == s.name {
        if config.inputFilename.None? || config.threshold.None? {
          error := Some(KeyError);
          UnselectedAfterError(config, scan, encodings, i + 1);
          assert encodings[..|encodings|] == encodings;
          return;
        }
        var hits := scan(config.inputFilename.value, config.threshold.value, s);
        var tagged := TagHits(s.name, hits);
        yielded := yielded + tagged;
      }
      i := i + 1;
    }
    assert encodings[..i] == encodings;
  }

  /** The inner loop of `detect_encoded_data`: one triple per hit, in order. */
  method TagHits(name: string, hits: seq<Hit>) returns (tagged: seq<Triple>)
    ensures tagged == TagAll(name, hits)
  {
    tagged := [];
    var j := 0;
    while j < |hits|
      invariant 0 <= j <= |hits|
      invariant tagged == TagAll(name, hits[..j])
    {
      assert hits[..j + 1][..j] == hits[..j];
      tagged := tagged + [Triple(name, hits[j].offset, hits[j].data)];
      j := j + 1;
    }
    assert hits[..j] == hits;
  }

  /** One more pass, after passes that raised nothing. */
  lemma DetectInStep(config: Config, scan: Scanner, table: seq<Scheme>, i: nat)
    requires i < |table|
    ensures var before := DetectIn(config, scan, table[..i]);
      before.error.None? ==>
        DetectIn(config, scan, table[..i + 1]) ==
          Outcome(before.yielded + Pass(config, scan, table[i]).yielded, Pass(config, scan, table[i]).error)
  {
    assert table[..i + 1][..i] == table[..i];
  }

  /** Once a pass has raised, the later passes change nothing. */
  lemma {:induction false} UnselectedAfterError(config: Config, scan: Scanner, table: seq<Scheme>, k: nat)
    requires k <= |table| && DetectIn(config, scan, table[..k]).error.Some?
    ensures DetectIn(config, scan, table) == DetectIn(config, scan, table[..k])
    decreases |table| - k
  {
    if k < |table| {
      assert table[..k + 1][..k] == table[..k];
      UnselectedAfterError(config, scan, table, k + 1);
    } else {
      assert table[..k] == table;
    }
  }

  // What the driver yields

  /** The hits of one scheme, tagged with its name, as the pass reports them. */
  function Hits(config: Config, scan: Scanner, s: Scheme): seq<Triple>
    requires config.inputFilename.Some? && config.threshold.Some?
  {
    TagAll(s.name, scan(config.inputFilename.value, config.threshold.value, s))
  }

  /** With both keys present nothing raises, and the output is each pass's
      output in table order. */
  lemma DetectUnrolled(config: Config, scan: Scanner)
    requires config.inputFilename.Some? && config.threshold.Some?
    ensures var e := Encodings();
      Detect(config, scan) == Outcome(Pass(config, scan, e[0]).yielded + Pass(config, scan, e[1]).yielded
                                      + Pass(config, scan, e[2]).yielded + Pass(config, scan, e[3]).yielded, None)
  {
    EncodingsTable();
    FourPasses(config, scan, Encodings());
  }

  lemma FourPasses(config: Config, scan: Scanner, e: seq<Scheme>)
    requires config.inputFilename.Some? && config.threshold.Some? && |e| == 4
    ensures DetectIn(config, scan, e) == Outcome(Pass(config, scan, e[0]).yielded + Pass(config, scan, e[1]).yielded
                                                 + Pass(config, scan, e[2]).yielded + Pass(config, scan, e[3]).yielded, None)
  {
    var y0 := Pass(config, scan, e[0]).yielded;
    var y1 := Pass(config, scan, e[1]).yielded;
    var y2 := Pass(config, scan, e[2]).yielded;
    var y3 := Pass(config, scan, e[3]).yielded;
    assert e[..0] == [];
    PresentStep(config, scan, e, 0);
    assert DetectIn(config, scan, e[..1]).yielded == y0;
    PresentStep(config, scan, e, 1);
    assert DetectIn(config, scan, e[..2]).yielded == y0 + y1;
    PresentStep(config, scan, e, 2);
    assert DetectIn(config, scan, e[..3]).yielded == y0 + y1 + y2;
    PresentStep(config, scan, e, 3);
    assert e[..4] == e;
    NothingRaised(config, scan, e);
  }

  /** With both keys present each pass appends its triples. */
  lemma PresentStep(config: Config, scan: Scanner, table: seq<Scheme>, i: nat)
    requires config.inputFilename.Some? && config.threshold.Some? && i < |table|
    ensures DetectIn(config, scan, table[..i + 1]).yielded ==
      DetectIn(config, scan, table[..i]).yielded + Pass(config, scan, table[i]).yielded
  {
    NothingRaised(config, scan, table[..i]);
    DetectInStep(config, scan, table, i);
  }

  /** With both keys present no pass raises. */
  lemma {:induction false} NothingRaised(config: Config, scan: Scanner, table: seq<Scheme>)
    requires config.inputFilename.Some? && config.threshold.Some?
    ensures DetectIn(config, scan, table).error.None?
  {
    if table != [] {
      NothingRaised(config, scan, table[..|table| - 1]);
    }
  }

  /** Without an `encoding` key, or with `"all"`, every encoding is scanned, in
      table order, and each hit keeps its offset and data. */
  lemma DetectAll(config: Config, scan: Scanner)
    requires config.inputFilename.Some? && config.threshold.Some?
    requires config.encoding.None? || config.encoding.value == "all"
    ensures var e := Encodings();
      Detect(config, scan) == Outcome(Hits(config, scan, e[0]) + Hits(config, scan, e[1])
                                      + Hits(config, scan, e[2]) + Hits(config, scan, e[3]), None)
  {
    DetectUnrolled(config, scan);
  }

  /** Naming one encoding scans that encoding alone. */
  lemma DetectOne(config: Config, scan: Scanner, k: nat)
    requires config.inputFilename.Some? && config.threshold.Some?
    requires k < |Encodings()| && config.encoding == Some(Encodings()[k].name)
    ensures Detect(config, scan) == Outcome(Hits(config, scan, Encodings()[k]), None)
  {
    DetectUnrolled(config, scan);
  }

  /** Any other name scans nothing and raises nothing, whatever the other keys. */
  lemma DetectUnknown(config: Config, scan: Scanner)
    requires config.encoding.Some? && config.encoding.value != "all"
    requires forall s | s in Encodings() :: s.name != config.encoding.value
    ensures Detect(config, scan) == Outcome([], None)
  {
    NothingSelected(config, scan, Encodings());
  }

  lemma {:induction false} NothingSelected(config: Config, scan: Scanner, table: seq<Scheme>)
    requires forall s | s in table :: !Selected(config, s.name)
    ensures DetectIn(config, scan, table) == Outcome([], None)
  {
    if table != [] {
      var p := table[..|table| - 1];
      forall s | s in p
        ensures !Selected(config, s.name)
      {
        assert s in table;
      }
      NothingSelected(config, scan, p);
    }
  }

  /** A missing `input_filename` or `threshold` raises KeyError at the first
      selected encoding, before anything is yielded. */
  lemma DetectMissingKey(config: Config, scan: Scanner, table: seq<Scheme>)
    requires config.inputFilename.None? || config.threshold.None?
    ensures DetectIn(config, scan, table) ==
      if exists s | s in table :: Selected(config, s.name) then Outcome([], Some(KeyError)) else Outcome([], None)
  {
    if exists s | s in table :: Selected(config, s.name) {
      var s :| s in table && Selected(config, s.name);
      var k :| 0 <= k < |table| && table[k] == s;
      MissingKeyRaises(config, scan, table, k);
    } else {
      NothingSelected(config, scan, table);
    }
  }

  /** With a key missing, a selected encoding at position `k` of the table makes
      the passes raise KeyError with nothing yielded. */
  lemma {:induction false} MissingKeyRaises(config: Config, scan: Scanner, table: seq<Scheme>, k: nat)
    requires config.inputFilename.None? || config.threshold.None?
    requires k < |table| && Selected(config, table[k].name)
    ensures DetectIn(config, scan, table) == Outcome([], Some(KeyError))
  {
    var p := table[..|table| - 1];
    if k < |p| {
      assert p[k] == table[k];
      MissingKeyRaises(config, scan, p, k);
    } else if exists j | 0 <= j < |p| :: Selected(config, p[j].name) {
      var j :| 0 <= j < |p| && Selected(config, p[j].name);
      MissingKeyRaises(config, scan, p, j);
    } else {
      forall s | s in p
        ensures !Selected(config, s.name)
      {
        var j :| 0 <= j < |p| && p[j] == s;
      }
      NothingSelected(config, scan, p);
    }
  }
}

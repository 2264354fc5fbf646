/**
 * The ingestion pass of the sensor-log tool (readSensorData): lines are read
 * one at a time, blank lines are skipped, the first token of a line is its
 * timestamp and every further token is a reading. Readings are stored per
 * column and line, the global extremes are tracked with the timestamp of the
 * line that first held them, and the first counted line fixes how many
 * readings every line must carry. Every fatal exit of the source is an Err.
 *
 * A line is the string one fgets call returns (its characters before the
 * terminating NUL, newline included when there is one). The conversion of a
 * token to a number (atof) is a parameter; so is the reading validator in the
 * functions that specify the pass, which the methods below instantiate with
 * the one of module SensorToken.
 */
module SensorLog {
  import opened Wrappers
  import SensorToken

  /** Largest number of readings one line may carry. */
  const MAX_SENSORS: nat := 100

  /**
   * A float value other than NaN: a finite reading, or an infinity. The
   * extremes start at the two infinities, and atof of a valid token whose
   * magnitude overflows (1e999, -1e999) yields one as well.
   */
  datatype Bound = NegInfinity | Finite(value: real) | PosInfinity

  /** Strict order on bounds, as the source's float comparison. */
  predicate Less(a: Bound, b: Bound)
  {
    || (a.NegInfinity? && !b.NegInfinity?)
    || (a.Finite? && b.Finite? && a.value < b.value)
    || (!a.PosInfinity? && b.PosInfinity?)
  }

  datatype Error =
    | MalformedLine
    | InvalidReading(token: string)
    | TooManySensors
    | InconsistentSensorCount
    | NoData

  /** The variables readSensorData updates while it reads. */
  datatype SensorData = SensorData(
    maxReading: Bound,
    maxTimestamp: string,
    minReading: Bound,
    minTimestamp: string,
    expectedSensorCount: int,
    totalReadings: nat,
    numSensors: nat,
    allReadings: map<(nat, nat), Bound>)

  /** The values the source starts from: infinite extremes and blank timestamps. */
  const Initial := SensorData(NegInfinity, " ", PosInfinity, " ", -1, 0, 0, map[])

  // ---------------------------------------------------------------------
  // Splitting a line (strspn and strtok of the C library).

  predicate IsSpace(c: char) { c == ' ' || c == '\t' || c == '\n' || c == '\r' }
  predicate IsDelim(c: char) { c == ' ' || c == '\t' }

  /** Length of the leading run of spaces, tabs, newlines and carriage returns. */
  function SpaceSpan(s: string): (n: nat)
    ensures n <= |s|
    ensures forall j :: 0 <= j < n ==> IsSpace(s[j])
    ensures n < |s| ==> !IsSpace(s[n])
  {
    if s == [] || !IsSpace(s[0]) then 0 else 1 + SpaceSpan(s[1..])
  }

  /** The blank-line test: empty, or nothing but whitespace. */
  predicate IsBlank(line: string)
  {
    line == [] || SpaceSpan(line) == |line|
  }

  /** Length of the leading run of characters other than space and tab. */
  function TokenLength(s: string): (n: nat)
    ensures n <= |s|
    ensures forall j :: 0 <= j < n ==> !IsDelim(s[j])
    ensures n < |s| ==> IsDelim(s[n])
  {
    if s == [] || IsDelim(s[0]) then 0 else 1 + TokenLength(s[1..])
  }

  /** The tokens strtok yields for the delimiters space and tab. */
  function Tokens(s: string): (ts: seq<string>)
    ensures forall i :: 0 <= i < |ts| ==> |ts[i]| > 0
    ensures forall i, j :: 0 <= i < |ts| && 0 <= j < |ts[i]| ==> !IsDelim(ts[i][j])
    decreases |s|
  {
    if s == [] then []
    else if IsDelim(s[0]) then Tokens(s[1..])
    else
      var n := TokenLength(s);
      [s[..n]] + Tokens(s[n..])
  }

  // ---------------------------------------------------------------------
  // One step at a time, as the loops of readSensorData take them.

  /**
   * Stores reading v in the current column of the current line and updates
   * the extremes; the strict comparisons keep the first timestamp on ties.
   */
  function Record(d: SensorData, timeStamp: string, v: Bound): SensorData
  {
    var stored := d.(allReadings := d.allReadings[(d.numSensors, d.totalReadings) := v],
                     numSensors := d.numSensors + 1);
    var withMax := if Less(stored.maxReading, v)
                   then stored.(maxReading := v, maxTimestamp := timeStamp)
                   else stored;
    if Less(v, withMax.minReading)
    then withMax.(minReading := v, minTimestamp := timeStamp)
    else withMax
  }

  /** One reading token: the sensor limit, then the validator, then the store. */
  function ScanToken(d: SensorData, timeStamp: string, token: string, valid: string -> bool, atof: string -> Bound): Result<SensorData, Error>
  {
    if d.numSensors >= MAX_SENSORS then Err(TooManySensors)
    else if !valid(token) then Err(InvalidReading(token))
    else Ok(Record(d, timeStamp, atof(token)))
  }

  /** The reading tokens of one line, left to right, up to the first error. */
  function ScanReadings(d: SensorData, timeStamp: string, toks: seq<string>, valid: string -> bool, atof: string -> Bound): Result<SensorData, Error>
    decreases |toks|
  {
    if toks == [] then Ok(d)
    else
      match ScanReadings(d, timeStamp, toks[..|toks| - 1], valid, atof)
      case Err(e) => Err(e)
      case Ok(d') => ScanToken(d', timeStamp, toks[|toks| - 1], valid, atof)
  }

  /** Scanning one more token continues from the state the prefix left. */
  lemma ScanOneMore(d: SensorData, timeStamp: string, toks: seq<string>, j: nat, valid: string -> bool, atof: string -> Bound)
    requires j < |toks|
    requires ScanReadings(d, timeStamp, toks[..j], valid, atof).Ok?
    ensures ScanReadings(d, timeStamp, toks[..j + 1], valid, atof)
            == ScanToken(ScanReadings(d, timeStamp, toks[..j], valid, atof).value, timeStamp, toks[j], valid, atof)
  {
    assert toks[..j + 1][..j] == toks[..j];
  }

  /** One line: skipped when blank, otherwise scanned and checked for its count. */
  function ReadLine(d: SensorData, line: string, valid: string -> bool, atof: string -> Bound): Result<SensorData, Error>
  {
    if IsBlank(line) then Ok(d)
    else
      var toks := Tokens(line);
      if toks == [] then Err(MalformedLine)
      else
        match ScanReadings(d.(numSensors := 0), toks[0], toks[1..], valid, atof)
        case Err(e) => Err(e)
        case Ok(d') =>
          if d'.expectedSensorCount == -1 then
            Ok(d'.(expectedSensorCount := d'.numSensors, totalReadings := d'.totalReadings + 1))
          else if d'.numSensors != d'.expectedSensorCount then Err(InconsistentSensorCount)
          else Ok(d'.(totalReadings := d'.totalReadings + 1))
  }

  /** The state after the given lines, or the first error. */
  function Run(lines: seq<string>, valid: string -> bool, atof: string -> Bound): Result<SensorData, Error>
    decreases |lines|
  {
    if lines == [] then Ok(Initial)
    else
      match Run(lines[..|lines| - 1], valid, atof)
      case Err(e) => Err(e)
      case Ok(d) => ReadLine(d, lines[|lines| - 1], valid, atof)
  }

  /** The whole ingestion: a log without a counted line is an error. */
  function Ingest(lines: seq<string>, valid: string -> bool, atof: string -> Bound): Result<SensorData, Error>
  {
    match Run(lines, valid, atof)
    case Err(e) => Err(e)
    case Ok(d) => if d.totalReadings == 0 then Err(NoData) else Ok(d)
  }

  /** The first error ends the run: later lines cannot change it. */
  lemma {:induction false} ErrorIsFinal(lines: seq<string>, k: nat, e: Error, valid: string -> bool, atof: string -> Bound)
    requires k <= |lines|
    requires Run(lines[..k], valid, atof) == Err(e)
    ensures Run(lines, valid, atof) == Err(e)
    decreases |lines|
  {
    if k < |lines| {
      assert lines[..|lines| - 1][..k] == lines[..k];
      ErrorIsFinal(lines[..|lines| - 1], k, e, valid, atof);
    } else {
      assert lines[..k] == lines;
    }
  }

  /** The first bad reading ends the line: later tokens cannot change it. */
  lemma {:induction false} ScanErrorIsFinal(d: SensorData, timeStamp: string, toks: seq<string>, k: nat, e: Error,
                                            valid: string -> bool, atof: string -> Bound)
    requires k <= |toks|
    requires ScanReadings(d, timeStamp, toks[..k], valid, atof) == Err(e)
    ensures ScanReadings(d, timeStamp, toks, valid, atof) == Err(e)
    decreases |toks|
  {
    if k < |toks| {
      assert toks[..|toks| - 1][..k] == toks[..k];
      ScanErrorIsFinal(d, timeStamp, toks[..|toks| - 1], k, e, valid, atof);
    } else {
      assert toks[..k] == toks;
    }
  }

  // ---------------------------------------------------------------------
  // The ingestion loop of readSensorData.

  /**
   * The token loop of readSensorData for one line: each reading is checked
   * against the sensor limit and the validator, stored, and compared with the
   * extremes.
   */
  method ScanLine(data: SensorData, timeStamp: string, toks: seq<string>, atof: string -> Bound)
    returns (r: Result<SensorData, Error>)
    ensures r == ScanReadings(data, timeStamp, toks, SensorToken.ValidReading, atof)
  {
    var maxReading, minReading := data.maxReading, data.minReading;
    var maxTimestamp, minTimestamp := data.maxTimestamp, data.minTimestamp;
    var allReadings: map<(nat, nat), Bound> := data.allReadings;
    var numSensors: nat := data.numSensors;
    var j := 0;
    while j < |toks|
      invariant j <= |toks|
      invariant ScanReadings(data, timeStamp, toks[..j], SensorToken.ValidReading, atof)
                == Ok(data.(maxReading := maxReading, maxTimestamp := maxTimestamp,
                            minReading := minReading, minTimestamp := minTimestamp,
                            numSensors := numSensors, allReadings := allReadings))
    {
      ghost var current := data.(maxReading := maxReading, maxTimestamp := maxTimestamp,
                                 minReading := minReading, minTimestamp := minTimestamp,
                                 numSensors := numSensors, allReadings := allReadings);
      var token := toks[j];
      ScanOneMore(data, timeStamp, toks, j, SensorToken.ValidReading, atof);
      j := j + 1;
      if numSensors >= MAX_SENSORS {
        ScanErrorIsFinal(data, timeStamp, toks, j, TooManySensors, SensorToken.ValidReading, atof);
        return Err(TooManySensors);
      }
      var valid := SensorToken.IsValidSensorReading(token);
      if !valid {
        ScanErrorIsFinal(data, timeStamp, toks, j, InvalidReading(token), SensorToken.ValidReading, atof);
        return Err(InvalidReading(token));
      }
      var reading := atof(token);
      allReadings := allReadings[(numSensors, data.totalReadings) := reading];
      if Less(maxReading, reading) {
        maxReading := reading;
        maxTimestamp := timeStamp;
      }
      if Less(reading, minReading) {
        minReading := reading;
        minTimestamp := timeStamp;
      }
      numSensors := numSensors + 1;
      assert data.(maxReading := maxReading, maxTimestamp := maxTimestamp,
                   minReading := minReading, minTimestamp := minTimestamp,
                   numSensors := numSensors, allReadings := allReadings)
             == Record(current, timeStamp, reading);
      assert ScanToken(current, timeStamp, token, SensorToken.ValidReading, atof) == Ok(Record(current, timeStamp, reading));
    }
    assert toks[..j] == toks;
    r := Ok(data.(maxReading := maxReading, maxTimestamp := maxTimestamp,
                  minReading := minReading, minTimestamp := minTimestamp,
                  numSensors := numSensors, allReadings := allReadings));
  }

  /**
   * The body of the line loop: a blank line is skipped; otherwise the first
   * token is the timestamp, the rest are scanned, and the count is checked
   * against the one the first counted line fixed.
   */
  method ProcessLine(data: SensorData, line: string, atof: string -> Bound) returns (r: Result<SensorData, Error>)
    ensures r == ReadLine(data, line, SensorToken.ValidReading, atof)
  {
    if IsBlank(line) {
      return Ok(data);
    }
    var toks := Tokens(line);
    if |toks| == 0 {
      return Err(MalformedLine);
    }
    var timeStamp := toks[0];
    var scanned := ScanLine(data.(numSensors := 0), timeStamp, toks[1..], atof);
    match scanned
    case Err(e) =>
      return Err(e);
    case Ok(d) =>
      if d.expectedSensorCount == -1 {
        r := Ok(d.(expectedSensorCount := d.numSensors, totalReadings := d.totalReadings + 1));
      } else if d.numSensors != d.expectedSensorCount {
        r := Err(InconsistentSensorCount);
      } else {
        r := Ok(d.(totalReadings := d.totalReadings + 1));
      }
  }

  /** The line loop of readSensorData and its final check for an empty log. */
  method ReadSensorData(lines: seq<string>, atof: string -> Bound) returns (r: Result<SensorData, Error>)
    ensures r == Ingest(lines, SensorToken.ValidReading, atof)
  {
    var data := Initial;
    var i := 0;
    while i < |lines|
      invariant i <= |lines|
      invariant Run(lines[..i], SensorToken.ValidReading, atof) == Ok(data)
    {
      assert lines[..i + 1][..i] == lines[..i];
      var next := ProcessLine(data, lines[i], atof);
      i := i + 1;
      match next
      case Err(e) =>
        ErrorIsFinal(lines, i, e, SensorToken.ValidReading, atof);
        return Err(e);
      case Ok(d) =>
        data := d;
    }
    assert lines[..i] == lines;
    if data.totalReadings == 0 {
      return Err(NoData);
    }
    r := Ok(data);
  }
}

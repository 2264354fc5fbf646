/**
 * The report that follows ingestion: each sensor column is summarised by the
 * statistics routine and printData writes the extremes, a blank line, and a
 * block of three lines per sensor, numbered from 1.
 *
 * The output file is modelled as its lines, each without its newline. The
 * statistics routine (a mean and a deviation in floating point, of a type F
 * left open, since an infinite reading makes them infinite or NaN) and the
 * two number formats, %g for the extremes and %.2f for the statistics, are
 * parameters; the sensor number, printed with %d, is written out.
 */
module SensorReport {
  import opened Wrappers
  import SensorToken
  import opened SensorLog
  import SensorLogFacts

  // ---------------------------------------------------------------------
  // Sensor numbers in decimal (%d of a positive int).

  function DigitChar(d: nat): (c: char)
    requires d < 10
    ensures '0' <= c <= '9'
  {
    ['0', '1', '2', '3', '4', '5', '6', '7', '8', '9'][d]
  }

  /** The decimal digits of n, most significant first, without leading zeros. */
  function NatToString(n: nat): (s: string)
    ensures |s| > 0 && forall k :: 0 <= k < |s| ==> '0' <= s[k] <= '9'
    ensures n > 0 ==> s[0] != '0'
  {
    if n < 10 then [DigitChar(n)] else NatToString(n / 10) + [DigitChar(n % 10)]
  }

  /** The number a string of decimal digits denotes. */
  function DecimalValue(s: string): nat
    requires forall k :: 0 <= k < |s| ==> '0' <= s[k] <= '9'
  {
    if s == [] then 0 else 10 * DecimalValue(s[..|s| - 1]) + (s[|s| - 1] as int - '0' as int)
  }

  /** Reading the printed digits back gives the number printed. */
  lemma {:induction false} DecimalRoundTrip(n: nat)
    ensures DecimalValue(NatToString(n)) == n
    decreases n
  {
    var s := NatToString(n);
    if n >= 10 {
      DecimalRoundTrip(n / 10);
      assert s[..|s| - 1] == NatToString(n / 10);
    }
  }

  /** Different sensors get different numbers in the report. */
  lemma NatToStringInjective(a: nat, b: nat)
    requires NatToString(a) == NatToString(b)
    ensures a == b
  {
    DecimalRoundTrip(a);
    DecimalRoundTrip(b);
  }

  // ---------------------------------------------------------------------
  // The lines of the report.

  /** The two header lines and the blank line the second one ends with. */
  function Headers(maxReading: Bound, maxTimestamp: string, minReading: Bound, minTimestamp: string,
                   general: Bound -> string): seq<string>
  {
    [ "Maximum recorded at " + maxTimestamp + " (" + general(maxReading) + ")",
      "Minimum recorded at " + minTimestamp + " (" + general(minReading) + ")",
      "" ]
  }

  /** The three lines of sensor number n. */
  function SensorBlock<F>(n: nat, mean: F, deviation: F, fixed2: F -> string): seq<string>
  {
    [ "Sensor " + NatToString(n) + ":",
      "  - mean: " + fixed2(mean),
      "  - deviation: " + fixed2(deviation) ]
  }

  /** The report after the blocks of the first count sensors. */
  function ReportLines<F>(maxReading: Bound, maxTimestamp: string, minReading: Bound, minTimestamp: string,
                       count: nat, means: seq<F>, stdDevs: seq<F>,
                       general: Bound -> string, fixed2: F -> string): (lines: seq<string>)
    requires count <= |means| && count <= |stdDevs|
    ensures |lines| == 3 + 3 * count
  {
    if count == 0 then Headers(maxReading, maxTimestamp, minReading, minTimestamp, general)
    else
      ReportLines(maxReading, maxTimestamp, minReading, minTimestamp, count - 1, means, stdDevs, general, fixed2)
        + SensorBlock(count, means[count - 1], stdDevs[count - 1], fixed2)
  }

  /**
   * printData: the extremes with their timestamps, then for each sensor its
   * number, its mean and its deviation.
   */
  method PrintData<F>(maxReading: Bound, maxTimestamp: string, minReading: Bound, minTimestamp: string,
                   sensorCount: nat, means: seq<F>, stdDevs: seq<F>,
                   general: Bound -> string, fixed2: F -> string) returns (out: seq<string>)
    requires sensorCount <= |means| && sensorCount <= |stdDevs|
    ensures out == ReportLines(maxReading, maxTimestamp, minReading, minTimestamp, sensorCount, means, stdDevs, general, fixed2)
  {
    out := ["Maximum recorded at " + maxTimestamp + " (" + general(maxReading) + ")"];
    out := out + ["Minimum recorded at " + minTimestamp + " (" + general(minReading) + ")", ""];
    for i := 0 to sensorCount
      invariant out == ReportLines(maxReading, maxTimestamp, minReading, minTimestamp, i, means, stdDevs, general, fixed2)
    {
      out := out + ["Sensor " + NatToString(i + 1) + ":"];
      out := out + ["  - mean: " + fixed2(means[i])];
      out := out + ["  - deviation: " + fixed2(stdDevs[i])];
    }
  }

  /**
   * The shape of the report: the headers first, then the block of sensor i + 1
   * at lines 3 + 3i to 5 + 3i, each block naming its own sensor.
   */
  lemma {:induction false} ReportLayout<F>(maxReading: Bound, maxTimestamp: string, minReading: Bound, minTimestamp: string,
                                        count: nat, means: seq<F>, stdDevs: seq<F>,
                                        general: Bound -> string, fixed2: F -> string)
    requires count <= |means| && count <= |stdDevs|
    ensures var lines := ReportLines(maxReading, maxTimestamp, minReading, minTimestamp, count, means, stdDevs, general, fixed2);
      && lines[..3] == Headers(maxReading, maxTimestamp, minReading, minTimestamp, general)
      && forall i :: 0 <= i < count ==>
           lines[3 + 3 * i..6 + 3 * i] == SensorBlock(i + 1, means[i], stdDevs[i], fixed2)
    decreases count
  {
    if count > 0 {
      ReportLayout(maxReading, maxTimestamp, minReading, minTimestamp, count - 1, means, stdDevs, general, fixed2);
      var pre := ReportLines(maxReading, maxTimestamp, minReading, minTimestamp, count - 1, means, stdDevs, general, fixed2);
      var lines := ReportLines(maxReading, maxTimestamp, minReading, minTimestamp, count, means, stdDevs, general, fixed2);
      assert lines[..|pre|] == pre;
      forall i | 0 <= i < count
        ensures lines[3 + 3 * i..6 + 3 * i] == SensorBlock(i + 1, means[i], stdDevs[i], fixed2)
      {
        if i < count - 1 {
          calc {
            lines[3 + 3 * i..6 + 3 * i];
            lines[..|pre|][3 + 3 * i..6 + 3 * i];
            pre[3 + 3 * i..6 + 3 * i];
          }
        }
      }
    }
  }

  /** line reads "Sensor ", then n in decimal, then ':'. */
  predicate Heading(line: string, n: nat)
  {
    && 8 < |line| && line[..7] == "Sensor " && line[|line| - 1] == ':'
    && (forall k :: 7 <= k < |line| - 1 ==> '0' <= line[k] <= '9')
    && DecimalValue(line[7..|line| - 1]) == n
  }

  /** The heading of the block of sensor n carries n in decimal between "Sensor " and ':'. */
  lemma SensorHeading<F>(n: nat, mean: F, deviation: F, fixed2: F -> string)
    ensures Heading(SensorBlock(n, mean, deviation, fixed2)[0], n)
  {
    var line := SensorBlock(n, mean, deviation, fixed2)[0];
    assert line[7..|line| - 1] == NatToString(n);
    DecimalRoundTrip(n);
  }

  /** The number printed on the first line of block i is i + 1. */
  lemma SensorNumbering<F>(maxReading: Bound, maxTimestamp: string, minReading: Bound, minTimestamp: string,
                        count: nat, means: seq<F>, stdDevs: seq<F>,
                        general: Bound -> string, fixed2: F -> string, i: nat)
    requires count <= |means| && count <= |stdDevs| && i < count
    ensures Heading(ReportLines(maxReading, maxTimestamp, minReading, minTimestamp, count, means, stdDevs, general, fixed2)[3 + 3 * i], i + 1)
  {
    var lines := ReportLines(maxReading, maxTimestamp, minReading, minTimestamp, count, means, stdDevs, general, fixed2);
    var block := SensorBlock(i + 1, means[i], stdDevs[i], fixed2);
    assert lines[3 + 3 * i] == block[0] by {
      ReportLayout(maxReading, maxTimestamp, minReading, minTimestamp, count, means, stdDevs, general, fixed2);
      assert lines[3 + 3 * i..6 + 3 * i] == block;
    }
    SensorHeading(i + 1, means[i], stdDevs[i], fixed2);
  }

  // ---------------------------------------------------------------------
  // From the ingested data to the report.

  /**
   * The readings of column c over the first n lines, as the statistics
   * routine receives them. Every cell the routine reads was stored (see
   * ColumnIsReadings); the value for a missing key only makes this total.
   */
  function Column(table: map<(nat, nat), Bound>, c: nat, n: nat): (col: seq<Bound>)
    ensures |col| == n
  {
    seq(n, k requires 0 <= k < n => var key: (nat, nat) := (c, k); if key in table then table[key] else Finite(0.0))
  }

  /** Sensor c's column after a successful ingestion is reading c of every counted line, in order. */
  lemma ColumnIsReadings(lines: seq<string>, valid: string -> bool, atof: string -> Bound, c: nat)
    requires Ingest(lines, valid, atof).Ok?
    requires c < Ingest(lines, valid, atof).value.numSensors
    ensures var d := Ingest(lines, valid, atof).value; var cs := SensorLogFacts.Counted(lines);
      && |Column(d.allReadings, c, d.totalReadings)| == |cs|
      && forall k :: 0 <= k < |cs| ==>
           c < |SensorLogFacts.Readings(cs[k])|
           && Column(d.allReadings, c, d.totalReadings)[k] == atof(SensorLogFacts.Readings(cs[k])[c])
  {
    var d := Ingest(lines, valid, atof).value;
    var cs := SensorLogFacts.Counted(lines);
    SensorLogFacts.RunCounts(lines, valid, atof);
    SensorLogFacts.RunCells(lines, valid, atof);
    forall k | 0 <= k < |cs|
      ensures c < |SensorLogFacts.Readings(cs[k])|
      ensures Column(d.allReadings, c, d.totalReadings)[k] == atof(SensorLogFacts.Readings(cs[k])[c])
    {
      var key: (nat, nat) := (c, k);
      assert key in d.allReadings;
    }
  }

  /** The means of the first n sensors, in sensor order. */
  function Means<F>(d: SensorData, stats: seq<Bound> -> (F, F), n: nat): (ms: seq<F>)
    ensures |ms| == n
  {
    seq(n, c requires 0 <= c < n => stats(Column(d.allReadings, c, d.totalReadings)).0)
  }

  /** The deviations of the first n sensors, in sensor order. */
  function Deviations<F>(d: SensorData, stats: seq<Bound> -> (F, F), n: nat): (ds: seq<F>)
    ensures |ds| == n
  {
    seq(n, c requires 0 <= c < n => stats(Column(d.allReadings, c, d.totalReadings)).1)
  }

  /** The statistics loop of readSensorData: one call of the statistics routine per sensor column. */
  method SummariseColumns<F>(d: SensorData, stats: seq<Bound> -> (F, F)) returns (means: seq<F>, stdDevs: seq<F>)
    ensures means == Means(d, stats, d.numSensors) && stdDevs == Deviations(d, stats, d.numSensors)
  {
    means, stdDevs := [], [];
    for i := 0 to d.numSensors
      invariant means == Means(d, stats, i) && stdDevs == Deviations(d, stats, i)
    {
      var summary := stats(Column(d.allReadings, i, d.totalReadings));
      means := means + [summary.0];
      stdDevs := stdDevs + [summary.1];
    }
  }

  /** The report the program writes for a log, or the error that stops it first. */
  function Report<F>(lines: seq<string>, atof: string -> Bound, stats: seq<Bound> -> (F, F),
                  general: Bound -> string, fixed2: F -> string): Result<seq<string>, Error>
  {
    match Ingest(lines, SensorToken.ValidReading, atof)
    case Err(e) => Err(e)
    case Ok(d) =>
      Ok(ReportLines(d.maxReading, d.maxTimestamp, d.minReading, d.minTimestamp, d.numSensors,
                     Means(d, stats, d.numSensors), Deviations(d, stats, d.numSensors), general, fixed2))
  }

  /**
   * The end of readSensorData: ingest the log, summarise each of the
   * numSensors columns over all counted lines, and print the report.
   */
  method AnalyseLog<F>(lines: seq<string>, atof: string -> Bound, stats: seq<Bound> -> (F, F),
                    general: Bound -> string, fixed2: F -> string) returns (r: Result<seq<string>, Error>)
    ensures r == Report(lines, atof, stats, general, fixed2)
  {
    var ingested := ReadSensorData(lines, atof);
    if ingested.Err? {
      return Err(ingested.error);
    }
    var d := ingested.value;
    var means, stdDevs := SummariseColumns(d, stats);
    var out := PrintData(d.maxReading, d.maxTimestamp, d.minReading, d.minTimestamp, d.numSensors,
                         means, stdDevs, general, fixed2);
    return Ok(out);
  }

  /**
   * A report is written exactly for the logs ingestion accepts; it has
   * 3 + 3n lines for the n sensors of the first counted line, the number of
   * readings every counted line carries.
   */
  lemma ReportSize<F>(lines: seq<string>, atof: string -> Bound, stats: seq<Bound> -> (F, F),
                   general: Bound -> string, fixed2: F -> string)
    ensures Report(lines, atof, stats, general, fixed2).Ok? <==> Ingest(lines, SensorToken.ValidReading, atof).Ok?
    ensures Report(lines, atof, stats, general, fixed2).Ok? ==>
      var cs := SensorLogFacts.Counted(lines);
      && cs != []
      && |Report(lines, atof, stats, general, fixed2).value|
         == 3 + 3 * |SensorLogFacts.Readings(cs[0])|
  {
    if Ingest(lines, SensorToken.ValidReading, atof).Ok? {
      SensorLogFacts.RunCounts(lines, SensorToken.ValidReading, atof);
    }
  }
}

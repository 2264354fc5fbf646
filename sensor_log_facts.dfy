/**
 * What the ingestion pass guarantees, stated over the log as a whole: which
 * logs it accepts, where each reading ends up, and what the extremes and
 * their timestamps are.
 */
module SensorLogFacts {
  import opened Wrappers
  import SensorToken
  import opened SensorLog

  // ---------------------------------------------------------------------
  // Splitting a line.

  /** The characters of s other than the token delimiters, in order. */
  function Strip(s: string): string
    decreases |s|
  {
    if s == [] then [] else (if IsDelim(s[0]) then [] else [s[0]]) + Strip(s[1..])
  }

  function Concat(ts: seq<string>): string
  {
    if ts == [] then [] else ts[0] + Concat(ts[1..])
  }

  lemma {:induction false} StripRun(s: string, n: nat)
    requires n <= |s|
    requires forall j :: 0 <= j < n ==> !IsDelim(s[j])
    ensures Strip(s) == s[..n] + Strip(s[n..])
    decreases n
  {
    if n > 0 {
      StripRun(s[1..], n - 1);
      assert s[1..][n - 1..] == s[n..];
      assert [s[0]] + s[1..][..n - 1] == s[..n];
    }
  }

  /** No character is lost or invented by tokenising: the tokens, joined, are the line without its delimiters. */
  lemma {:induction false} TokensCoverLine(s: string)
    ensures Concat(Tokens(s)) == Strip(s)
    decreases |s|
  {
    if s != [] {
      if IsDelim(s[0]) {
        TokensCoverLine(s[1..]);
      } else {
        var n := TokenLength(s);
        TokensCoverLine(s[n..]);
        StripRun(s, n);
        assert Tokens(s) == [s[..n]] + Tokens(s[n..]);
      }
    }
  }

  /**
   * The runs of delimiters around and between the tokens of s: the run before
   * the first token, the runs between consecutive tokens, and the run after
   * the last one.
   */
  function Gaps(s: string): (gs: seq<string>)
    ensures |gs| == |Tokens(s)| + 1
    decreases |s|
  {
    if s == [] then [[]]
    else if IsDelim(s[0]) then
      var g := Gaps(s[1..]);
      [[s[0]] + g[0]] + g[1..]
    else [[]] + Gaps(s[TokenLength(s)..])
  }

  /** gs[0] + ts[0] + gs[1] + ... + ts[n - 1] + gs[n]. */
  function Weave(gs: seq<string>, ts: seq<string>): string
    requires |gs| == |ts| + 1
    decreases |ts|
  {
    gs[0] + if ts == [] then [] else ts[0] + Weave(gs[1..], ts[1..])
  }

  predicate AllDelims(g: string)
  {
    forall j :: 0 <= j < |g| ==> IsDelim(g[j])
  }

  /** Lengthening the first gap lengthens the front of the woven string. */
  lemma WeaveWiderGap(x: string, g: seq<string>, ts: seq<string>)
    requires |g| == |ts| + 1
    ensures Weave([x + g[0]] + g[1..], ts) == x + Weave(g, ts)
  {
    var gs := [x + g[0]] + g[1..];
    assert gs[1..] == g[1..];
  }

  /** A token behind an empty gap comes first. */
  lemma WeaveToken(t: string, g: seq<string>, ts: seq<string>)
    requires |g| == |ts| + 1
    ensures Weave([[]] + g, [t] + ts) == t + Weave(g, ts)
  {
    assert ([[]] + g)[1..] == g;
    assert ([t] + ts)[1..] == ts;
  }

  /** Gluing the gaps and the tokens back together gives the line. */
  lemma {:induction false} WeaveGaps(s: string)
    ensures s == Weave(Gaps(s), Tokens(s))
    decreases |s|
  {
    if s != [] {
      if IsDelim(s[0]) {
        WeaveGaps(s[1..]);
        WeaveDelimStep(s);
      } else {
        WeaveGaps(s[TokenLength(s)..]);
        WeaveTokenStep(s);
      }
    }
  }

  /** A leading delimiter joins the first gap. */
  lemma WeaveDelimStep(s: string)
    requires s != [] && IsDelim(s[0])
    requires s[1..] == Weave(Gaps(s[1..]), Tokens(s[1..]))
    ensures s == Weave(Gaps(s), Tokens(s))
  {
    var tail := s[1..];
    var g := Gaps(tail);
    calc {
      Weave(Gaps(s), Tokens(s));
      { assert Gaps(s) == [[s[0]] + g[0]] + g[1..] && Tokens(s) == Tokens(tail); }
      Weave([[s[0]] + g[0]] + g[1..], Tokens(tail));
      { WeaveWiderGap([s[0]], g, Tokens(tail)); }
      [s[0]] + tail;
      { assert s == [s[0]] + tail; }
      s;
    }
  }

  /** A leading token comes first, behind an empty gap. */
  lemma WeaveTokenStep(s: string)
    requires s != [] && !IsDelim(s[0])
    requires s[TokenLength(s)..] == Weave(Gaps(s[TokenLength(s)..]), Tokens(s[TokenLength(s)..]))
    ensures s == Weave(Gaps(s), Tokens(s))
  {
    var n := TokenLength(s);
    var rest := s[n..];
    calc {
      Weave(Gaps(s), Tokens(s));
      { assert Gaps(s) == [[]] + Gaps(rest) && Tokens(s) == [s[..n]] + Tokens(rest); }
      Weave([[]] + Gaps(rest), [s[..n]] + Tokens(rest));
      { WeaveToken(s[..n], Gaps(rest), Tokens(rest)); }
      s[..n] + rest;
      { assert s == s[..n] + rest; }
      s;
    }
  }

  /** Every gap is made of spaces and tabs only. */
  lemma {:induction false} GapsAreDelims(s: string)
    ensures forall i :: 0 <= i < |Gaps(s)| ==> AllDelims(Gaps(s)[i])
    decreases |s|
  {
    if s != [] {
      var gs := Gaps(s);
      if IsDelim(s[0]) {
        var g := Gaps(s[1..]);
        GapsAreDelims(s[1..]);
        forall i | 0 <= i < |gs|
          ensures AllDelims(gs[i])
        {
          if i > 0 {
            assert gs[i] == g[i];
          } else {
            assert AllDelims(g[0]);
          }
        }
      } else {
        var rest := s[TokenLength(s)..];
        GapsAreDelims(rest);
        forall i | 0 < i < |gs|
          ensures AllDelims(gs[i])
        {
          assert gs[i] == Gaps(rest)[i - 1];
        }
      }
    }
  }

  /** Consecutive tokens are separated by at least one space or tab. */
  lemma {:induction false} InnerGapsNonEmpty(s: string)
    ensures forall i :: 0 < i < |Tokens(s)| ==> Gaps(s)[i] != []
    decreases |s|
  {
    if s != [] {
      var gs := Gaps(s);
      if IsDelim(s[0]) {
        InnerGapsNonEmpty(s[1..]);
        forall i | 0 < i < |Tokens(s)|
          ensures gs[i] != []
        {
          assert gs[i] == Gaps(s[1..])[i];
        }
      } else {
        var n := TokenLength(s);
        var rest := s[n..];
        InnerGapsNonEmpty(rest);
        assert Tokens(s) == [s[..n]] + Tokens(rest);
        forall i | 0 < i < |Tokens(s)|
          ensures gs[i] != []
        {
          assert gs[i] == Gaps(rest)[i - 1];
          if i == 1 {
            assert rest != [] && IsDelim(rest[0]);
          }
        }
      }
    }
  }

  /**
   * strtok's split: the line is its tokens with runs of spaces and tabs
   * around them, and consecutive tokens are separated by at least one space
   * or tab. With the tokens non-empty and free of delimiters, each token is
   * a maximal run of other characters.
   */
  lemma TokensSplit(s: string)
    ensures s == Weave(Gaps(s), Tokens(s))
    ensures forall i :: 0 <= i < |Gaps(s)| ==> AllDelims(Gaps(s)[i])
    ensures forall i :: 0 < i < |Tokens(s)| ==> Gaps(s)[i] != []
  {
    WeaveGaps(s);
    GapsAreDelims(s);
    InnerGapsNonEmpty(s);
  }

  lemma {:induction false} NonDelimGivesToken(s: string, j: nat)
    requires j < |s| && !IsDelim(s[j])
    ensures Tokens(s) != []
    decreases |s|
  {
    if IsDelim(s[0]) {
      NonDelimGivesToken(s[1..], j - 1);
    }
  }

  /** A line that is not blank always yields a token, so it always has a timestamp. */
  lemma NonBlankHasToken(line: string)
    requires !IsBlank(line)
    ensures Tokens(line) != []
  {
    var n := SpaceSpan(line);
    NonDelimGivesToken(line, n);
  }

  // ---------------------------------------------------------------------
  // The counted lines of a log and what they carry.

  /** The lines that are not blank, in order: the lines the source counts. */
  function Counted(lines: seq<string>): (cs: seq<string>)
    ensures forall k :: 0 <= k < |cs| ==> !IsBlank(cs[k])
    decreases |lines|
  {
    if lines == [] then []
    else
      var last := lines[|lines| - 1];
      Counted(lines[..|lines| - 1]) + (if IsBlank(last) then [] else [last])
  }

  /** The timestamp of a line: its first token. */
  function Stamp(line: string): string
  {
    var t := Tokens(line);
    if t == [] then [] else t[0]
  }

  /** The reading tokens of a line: every token after the first. */
  function Readings(line: string): seq<string>
  {
    var t := Tokens(line);
    if t == [] then [] else t[1..]
  }

  function Stamps(cs: seq<string>): (ts: seq<string>)
    ensures |ts| == |cs|
    ensures forall k :: 0 <= k < |cs| ==> ts[k] == Stamp(cs[k])
  {
    seq(|cs|, k requires 0 <= k < |cs| => Stamp(cs[k]))
  }

  /** A line the scan accepts: at most MAX_SENSORS readings, each of them valid. */
  predicate LineOk(line: string, valid: string -> bool)
  {
    && |Readings(line)| <= MAX_SENSORS
    && forall c :: 0 <= c < |Readings(line)| ==> valid(Readings(line)[c])
  }

  /** Every counted line is accepted and carries as many readings as the first. */
  predicate WellFormedLog(cs: seq<string>, valid: string -> bool)
  {
    forall k :: 0 <= k < |cs| ==> LineOk(cs[k], valid) && |Readings(cs[k])| == |Readings(cs[0])|
  }

  // ---------------------------------------------------------------------
  // Scanning one line.

  /** Recording a reading stores it at the current column and line and moves to the next column. */
  lemma RecordShape(d: SensorData, ts: string, v: Bound)
    ensures var d' := Record(d, ts, v);
      && d'.allReadings == d.allReadings[(d.numSensors, d.totalReadings) := v]
      && d'.numSensors == d.numSensors + 1
      && d'.totalReadings == d.totalReadings
      && d'.expectedSensorCount == d.expectedSensorCount
  {
  }

  /** Scanning a line's readings advances the column and nothing else of the counters. */
  lemma {:induction false} ScanCounters(s: SensorData, ts: string, toks: seq<string>, valid: string -> bool, atof: string -> Bound)
    requires ScanReadings(s, ts, toks, valid, atof).Ok?
    ensures var d := ScanReadings(s, ts, toks, valid, atof).value;
      && d.totalReadings == s.totalReadings
      && d.expectedSensorCount == s.expectedSensorCount
      && d.numSensors == s.numSensors + |toks|
    decreases |toks|
  {
    if toks != [] {
      var p := toks[..|toks| - 1];
      ScanCounters(s, ts, p, valid, atof);
      var d' := ScanReadings(s, ts, p, valid, atof).value;
      assert ScanReadings(s, ts, toks, valid, atof) == ScanToken(d', ts, toks[|toks| - 1], valid, atof);
      RecordShape(d', ts, atof(toks[|toks| - 1]));
    }
  }

  /**
   * One cell of the table after scanning a line's readings: it is present
   * when it was before or is one of the line's new columns; reading c lands in
   * column numSensors + c of the current line; other cells keep their values.
   */
  lemma {:induction false} ScanCell(s: SensorData, ts: string, toks: seq<string>, valid: string -> bool,
                                    atof: string -> Bound, key: (nat, nat))
    requires ScanReadings(s, ts, toks, valid, atof).Ok?
    ensures var m := ScanReadings(s, ts, toks, valid, atof).value.allReadings;
      && (key in m <==> key in s.allReadings || (key.1 == s.totalReadings && s.numSensors <= key.0 < s.numSensors + |toks|))
      && (key.1 == s.totalReadings && s.numSensors <= key.0 < s.numSensors + |toks| ==>
            m[key] == atof(toks[key.0 - s.numSensors]))
      && (key in s.allReadings && !(key.1 == s.totalReadings && s.numSensors <= key.0) ==>
            m[key] == s.allReadings[key])
    decreases |toks|
  {
    if toks != [] {
      var p := toks[..|toks| - 1];
      var last := toks[|toks| - 1];
      ScanCell(s, ts, p, valid, atof, key);
      ScanCounters(s, ts, p, valid, atof);
      var d' := ScanReadings(s, ts, p, valid, atof).value;
      var k: (nat, nat) := (s.numSensors + |p|, s.totalReadings);
      assert ScanReadings(s, ts, toks, valid, atof) == ScanToken(d', ts, last, valid, atof);
      RecordShape(d', ts, atof(last));
      if key.1 == s.totalReadings && s.numSensors <= key.0 < s.numSensors + |toks| {
        var c := key.0 - s.numSensors;
        if key != k {
          assert toks[c] == p[c];
        }
      }
    }
  }

  /** ScanCell for every cell at once. */
  lemma ScanTable(s: SensorData, ts: string, toks: seq<string>, valid: string -> bool, atof: string -> Bound)
    requires ScanReadings(s, ts, toks, valid, atof).Ok?
    ensures var m := ScanReadings(s, ts, toks, valid, atof).value.allReadings;
      && (forall key :: key in m <==>
            key in s.allReadings || (key.1 == s.totalReadings && s.numSensors <= key.0 < s.numSensors + |toks|))
      && (forall key :: key in m && key.1 == s.totalReadings && s.numSensors <= key.0 < s.numSensors + |toks| ==>
            m[key] == atof(toks[key.0 - s.numSensors]))
      && (forall key :: key in s.allReadings && !(key.1 == s.totalReadings && s.numSensors <= key.0) ==>
            key in m && m[key] == s.allReadings[key])
  {
    forall key: (nat, nat)
      ensures var m := ScanReadings(s, ts, toks, valid, atof).value.allReadings;
        && (key in m <==> key in s.allReadings || (key.1 == s.totalReadings && s.numSensors <= key.0 < s.numSensors + |toks|))
        && (key.1 == s.totalReadings && s.numSensors <= key.0 < s.numSensors + |toks| ==>
              m[key] == atof(toks[key.0 - s.numSensors]))
        && (key in s.allReadings && !(key.1 == s.totalReadings && s.numSensors <= key.0) ==>
              m[key] == s.allReadings[key])
    {
      ScanCell(s, ts, toks, valid, atof, key);
    }
  }

  /** A line's readings are accepted exactly when there are few enough and all are valid. */
  lemma {:induction false} ScanOkIff(s: SensorData, ts: string, toks: seq<string>, valid: string -> bool, atof: string -> Bound)
    requires s.numSensors <= MAX_SENSORS
    ensures ScanReadings(s, ts, toks, valid, atof).Ok? <==>
            s.numSensors + |toks| <= MAX_SENSORS
            && forall c :: 0 <= c < |toks| ==> valid(toks[c])
    decreases |toks|
  {
    if toks != [] {
      var p := toks[..|toks| - 1];
      var last := toks[|toks| - 1];
      ScanOkIff(s, ts, p, valid, atof);
      assert forall c :: 0 <= c < |p| ==> toks[c] == p[c];
      if ScanReadings(s, ts, p, valid, atof).Ok? {
        ScanCounters(s, ts, p, valid, atof);
        var d' := ScanReadings(s, ts, p, valid, atof).value;
        assert ScanReadings(s, ts, toks, valid, atof) == ScanToken(d', ts, last, valid, atof);
        assert (forall c :: 0 <= c < |toks| ==> valid(toks[c])) <==> valid(last);
      } else if s.numSensors + |p| <= MAX_SENSORS {
        var c :| 0 <= c < |p| && !valid(p[c]);
        assert !valid(toks[c]);
      }
    }
  }

  // ---------------------------------------------------------------------
  // The extremes.

  /** Every stored reading lies between the minimum and the maximum. */
  predicate Bounded(d: SensorData)
  {
    forall key :: key in d.allReadings ==>
      !Less(d.maxReading, d.allReadings[key]) && !Less(d.allReadings[key], d.minReading)
  }

  /**
   * With no reading the maximum is its starting value; while it is that value
   * its timestamp is the blank one; otherwise it is a stored reading and its
   * timestamp is the one of the first line that holds it (tss gives each
   * line's timestamp). Readings of minus infinity never move it.
   */
  predicate MaxFirst(d: SensorData, tss: seq<string>)
  {
    var m := d.allReadings;
    && (m == map[] ==> d.maxReading == NegInfinity)
    && (d.maxReading == NegInfinity ==> d.maxTimestamp == " ")
    && (d.maxReading != NegInfinity ==>
          exists key :: key in m && key.1 < |tss| && m[key] == d.maxReading && d.maxTimestamp == tss[key.1]
                        && forall other :: other in m && other.1 < key.1 ==> Less(m[other], d.maxReading))
  }

  /** The same for the minimum, whose starting value is plus infinity. */
  predicate MinFirst(d: SensorData, tss: seq<string>)
  {
    var m := d.allReadings;
    && (m == map[] ==> d.minReading == PosInfinity)
    && (d.minReading == PosInfinity ==> d.minTimestamp == " ")
    && (d.minReading != PosInfinity ==>
          exists key :: key in m && key.1 < |tss| && m[key] == d.minReading && d.minTimestamp == tss[key.1]
                        && forall other :: other in m && other.1 < key.1 ==> Less(d.minReading, m[other]))
  }

  /** Where Record may put a new reading without disturbing the extremes' witnesses. */
  predicate FreshCell(d: SensorData, ts: string, tss: seq<string>)
  {
    && |tss| == d.totalReadings + 1
    && tss[d.totalReadings] == ts
    && (d.numSensors, d.totalReadings) !in d.allReadings
  }

  /** The order on bounds is total and transitive, as float comparison without NaN is. */
  lemma LessOrder(a: Bound, b: Bound, c: Bound)
    ensures !Less(a, a)
    ensures Less(a, b) || a == b || Less(b, a)
    ensures Less(a, b) && Less(b, c) ==> Less(a, c)
    ensures !Less(a, b) && Less(a, c) ==> Less(b, c)
    ensures !Less(b, a) && Less(c, a) ==> Less(c, b)
  {
  }

  lemma RecordBounded(d: SensorData, ts: string, v: Bound)
    requires Bounded(d)
    ensures Bounded(Record(d, ts, v))
  {
    var d' := Record(d, ts, v);
    forall key | key in d'.allReadings
      ensures !Less(d'.maxReading, d'.allReadings[key]) && !Less(d'.allReadings[key], d'.minReading)
    {
      var x := d'.allReadings[key];
      LessOrder(d.maxReading, x, v);
      LessOrder(x, d.maxReading, v);
      LessOrder(d.minReading, x, v);
      LessOrder(x, d.minReading, v);
    }
  }

  lemma RecordMax(d: SensorData, ts: string, v: Bound, tss: seq<string>)
    requires Bounded(d) && MaxFirst(d, tss) && FreshCell(d, ts, tss)
    ensures MaxFirst(Record(d, ts, v), tss)
  {
    var k := (d.numSensors, d.totalReadings);
    var d' := Record(d, ts, v);
    RecordShape(d, ts, v);
    assert k in d'.allReadings;
    if Less(d.maxReading, v) {
      assert d'.maxReading == v && d'.maxTimestamp == ts;
      forall other | other in d'.allReadings && other.1 < k.1
        ensures Less(d'.allReadings[other], v)
      {
        assert other in d.allReadings;
        LessOrder(d.maxReading, d.allReadings[other], v);
      }
    } else if d.maxReading != NegInfinity {
      var w :| w in d.allReadings && w.1 < |tss| && d.allReadings[w] == d.maxReading
                && d.maxTimestamp == tss[w.1]
                && forall other :: other in d.allReadings && other.1 < w.1 ==> Less(d.allReadings[other], d.maxReading);
      assert w != k;
      assert d'.allReadings[w] == d'.maxReading;
    }
  }

  lemma RecordMin(d: SensorData, ts: string, v: Bound, tss: seq<string>)
    requires Bounded(d) && MinFirst(d, tss) && FreshCell(d, ts, tss)
    ensures MinFirst(Record(d, ts, v), tss)
  {
    var k := (d.numSensors, d.totalReadings);
    var d' := Record(d, ts, v);
    RecordShape(d, ts, v);
    assert k in d'.allReadings;
    if Less(v, d.minReading) {
      assert d'.minReading == v && d'.minTimestamp == ts;
      forall other | other in d'.allReadings && other.1 < k.1
        ensures Less(v, d'.allReadings[other])
      {
        assert other in d.allReadings;
        LessOrder(d.minReading, d.allReadings[other], v);
      }
    } else if d.minReading != PosInfinity {
      var w :| w in d.allReadings && w.1 < |tss| && d.allReadings[w] == d.minReading
                && d.minTimestamp == tss[w.1]
                && forall other :: other in d.allReadings && other.1 < w.1 ==> Less(d.minReading, d.allReadings[other]);
      assert w != k;
      assert d'.allReadings[w] == d'.minReading;
    }
  }

  /** The last reading token of a successful scan is recorded on top of the state the others left. */
  lemma ScanStep(s: SensorData, ts: string, toks: seq<string>, valid: string -> bool, atof: string -> Bound)
    requires toks != [] && ScanReadings(s, ts, toks, valid, atof).Ok?
    ensures var p := ScanReadings(s, ts, toks[..|toks| - 1], valid, atof);
      && p.Ok?
      && ScanReadings(s, ts, toks, valid, atof).value == Record(p.value, ts, atof(toks[|toks| - 1]))
  {
  }

  /** After part of a line, the next column of the current line is still empty. */
  lemma ScanFresh(s: SensorData, ts: string, p: seq<string>, valid: string -> bool, atof: string -> Bound, tss: seq<string>)
    requires ScanReadings(s, ts, p, valid, atof).Ok?
    requires |tss| == s.totalReadings + 1 && tss[s.totalReadings] == ts
    requires forall key :: key in s.allReadings ==> key.1 < s.totalReadings
    ensures FreshCell(ScanReadings(s, ts, p, valid, atof).value, ts, tss)
  {
    ScanCounters(s, ts, p, valid, atof);
    ScanCell(s, ts, p, valid, atof, (s.numSensors + |p|, s.totalReadings));
  }

  /** Scanning a line keeps the extremes right, given the line's own timestamp in tss. */
  lemma {:induction false} ScanExtremes(s: SensorData, ts: string, toks: seq<string>, valid: string -> bool,
                                        atof: string -> Bound, tss: seq<string>, d: SensorData)
    requires ScanReadings(s, ts, toks, valid, atof) == Ok(d)
    requires Bounded(s) && MaxFirst(s, tss) && MinFirst(s, tss)
    requires |tss| == s.totalReadings + 1 && tss[s.totalReadings] == ts
    requires forall key :: key in s.allReadings ==> key.1 < s.totalReadings
    ensures Bounded(d) && MaxFirst(d, tss) && MinFirst(d, tss)
    decreases |toks|
  {
    if toks != [] {
      var p := toks[..|toks| - 1];
      var last := toks[|toks| - 1];
      ScanStep(s, ts, toks, valid, atof);
      var d' := ScanReadings(s, ts, p, valid, atof).value;
      ScanExtremes(s, ts, p, valid, atof, tss, d');
      ScanFresh(s, ts, p, valid, atof, tss);
      RecordBounded(d', ts, atof(last));
      RecordMax(d', ts, atof(last), tss);
      RecordMin(d', ts, atof(last), tss);
    }
  }

  // ---------------------------------------------------------------------
  // Whole logs.

  /** How a line that is not blank is read: its stamp, then its readings from column 0. */
  lemma ReadCountedLine(d: SensorData, line: string, valid: string -> bool, atof: string -> Bound)
    requires !IsBlank(line)
    ensures Tokens(line) != []
    ensures ReadLine(d, line, valid, atof) ==
      match ScanReadings(d.(numSensors := 0), Stamp(line), Readings(line), valid, atof)
      case Err(e) => Err(e)
      case Ok(d') =>
        if d'.expectedSensorCount == -1 then
          Ok(d'.(expectedSensorCount := d'.numSensors, totalReadings := d'.totalReadings + 1))
        else if d'.numSensors != d'.expectedSensorCount then Err(InconsistentSensorCount)
        else Ok(d'.(totalReadings := d'.totalReadings + 1))
  {
    NonBlankHasToken(line);
  }

  lemma RunLast(lines: seq<string>, valid: string -> bool, atof: string -> Bound)
    requires lines != []
    ensures Run(lines, valid, atof) ==
      match Run(lines[..|lines| - 1], valid, atof)
      case Err(e) => Err(e)
      case Ok(d) => ReadLine(d, lines[|lines| - 1], valid, atof)
    ensures Counted(lines) == Counted(lines[..|lines| - 1]) + (if IsBlank(lines[|lines| - 1]) then [] else [lines[|lines| - 1]])
  {
  }

  /**
   * After a successful run: one count per counted line, the first counted line
   * fixes the number of readings, every counted line is accepted, and an
   * all-blank log leaves the starting values untouched.
   */
  lemma {:induction false} RunCounts(lines: seq<string>, valid: string -> bool, atof: string -> Bound)
    requires Run(lines, valid, atof).Ok?
    ensures var d := Run(lines, valid, atof).value; var cs := Counted(lines);
      && d.totalReadings == |cs|
      && (|cs| == 0 ==> d == Initial)
      && (|cs| > 0 ==> d.expectedSensorCount == d.numSensors == |Readings(cs[0])|)
      && WellFormedLog(cs, valid)
    decreases |lines|
  {
    if lines != [] {
      var pre := lines[..|lines| - 1];
      var l := lines[|lines| - 1];
      RunLast(lines, valid, atof);
      RunCounts(pre, valid, atof);
      if !IsBlank(l) {
        var d0 := Run(pre, valid, atof).value;
        var s := d0.(numSensors := 0);
        ReadCountedLine(d0, l, valid, atof);
        ScanCounters(s, Stamp(l), Readings(l), valid, atof);
        ScanOkIff(s, Stamp(l), Readings(l), valid, atof);
        var cs := Counted(lines);
        assert cs == Counted(pre) + [l];
        assert LineOk(l, valid);
      }
    }
  }

  /**
   * After a successful run the table holds exactly one cell per reading:
   * reading c of counted line k is at column c, line k.
   */
  lemma {:induction false} RunCell(lines: seq<string>, valid: string -> bool, atof: string -> Bound, key: (nat, nat))
    requires Run(lines, valid, atof).Ok?
    ensures var d := Run(lines, valid, atof).value; var cs := Counted(lines);
      && (key in d.allReadings <==> key.1 < |cs| && key.0 < d.expectedSensorCount)
      && (key in d.allReadings ==>
            key.0 < |Readings(cs[key.1])| && d.allReadings[key] == atof(Readings(cs[key.1])[key.0]))
    decreases |lines|
  {
    if lines != [] {
      var pre := lines[..|lines| - 1];
      var l := lines[|lines| - 1];
      RunLast(lines, valid, atof);
      RunCell(pre, valid, atof, key);
      RunCounts(pre, valid, atof);
      RunCounts(lines, valid, atof);
      if !IsBlank(l) {
        var d0 := Run(pre, valid, atof).value;
        var s := d0.(numSensors := 0);
        var rt := Readings(l);
        ReadCountedLine(d0, l, valid, atof);
        ScanCounters(s, Stamp(l), rt, valid, atof);
        ScanCell(s, Stamp(l), rt, valid, atof, key);
        var cs := Counted(lines);
        var csPre := Counted(pre);
        assert cs == csPre + [l];
        if key.1 < |csPre| {
          assert cs[key.1] == csPre[key.1];
        } else if key.1 == |csPre| {
          assert cs[key.1] == l;
        }
      }
    }
  }

  /** RunCell for every cell at once. */
  lemma RunCells(lines: seq<string>, valid: string -> bool, atof: string -> Bound)
    requires Run(lines, valid, atof).Ok?
    ensures var d := Run(lines, valid, atof).value; var cs := Counted(lines);
      && (forall key :: key in d.allReadings <==> key.1 < |cs| && key.0 < d.expectedSensorCount)
      && (forall key :: key in d.allReadings ==>
            key.0 < |Readings(cs[key.1])| && d.allReadings[key] == atof(Readings(cs[key.1])[key.0]))
  {
    forall key: (nat, nat)
      ensures var d := Run(lines, valid, atof).value; var cs := Counted(lines);
        && (key in d.allReadings <==> key.1 < |cs| && key.0 < d.expectedSensorCount)
        && (key in d.allReadings ==>
              key.0 < |Readings(cs[key.1])| && d.allReadings[key] == atof(Readings(cs[key.1])[key.0]))
    {
      RunCell(lines, valid, atof, key);
    }
  }

  /** After a successful run the extremes are bounds, attained, and stamped with the first line holding them. */
  lemma {:induction false} RunExtremes(lines: seq<string>, valid: string -> bool, atof: string -> Bound)
    requires Run(lines, valid, atof).Ok?
    ensures var d := Run(lines, valid, atof).value; var tss := Stamps(Counted(lines));
      Bounded(d) && MaxFirst(d, tss) && MinFirst(d, tss)
    decreases |lines|
  {
    if lines != [] {
      var pre := lines[..|lines| - 1];
      var l := lines[|lines| - 1];
      RunLast(lines, valid, atof);
      RunExtremes(pre, valid, atof);
      if !IsBlank(l) {
        RunCounts(pre, valid, atof);
        RunCells(pre, valid, atof);
        var d0 := Run(pre, valid, atof).value;
        var s := d0.(numSensors := 0);
        var tssPre := Stamps(Counted(pre));
        StampsSnoc(Counted(pre), l);
        var tss := tssPre + [Stamp(l)];
        StampsExtend(d0, tssPre, Stamp(l));
        ExtremesKept(d0, s, tss);
        ReadCountedLine(d0, l, valid, atof);
        var d1 := ScanReadings(s, Stamp(l), Readings(l), valid, atof).value;
        ScanExtremes(s, Stamp(l), Readings(l), valid, atof, tss, d1);
        ExtremesKept(d1, Run(lines, valid, atof).value, tss);
      }
    }
  }

  lemma StampsSnoc(cs: seq<string>, line: string)
    ensures Stamps(cs + [line]) == Stamps(cs) + [Stamp(line)]
  {
  }

  /** The extremes invariants only look at the table and the extremes. */
  lemma ExtremesKept(d: SensorData, e: SensorData, tss: seq<string>)
    requires Bounded(d) && MaxFirst(d, tss) && MinFirst(d, tss)
    requires e.allReadings == d.allReadings
    requires e.maxReading == d.maxReading && e.maxTimestamp == d.maxTimestamp
    requires e.minReading == d.minReading && e.minTimestamp == d.minTimestamp
    ensures Bounded(e) && MaxFirst(e, tss) && MinFirst(e, tss)
  {
  }

  /** Witnesses for the extremes stay witnesses when another line's timestamp is appended. */
  lemma StampsExtend(d: SensorData, tss: seq<string>, ts: string)
    requires MaxFirst(d, tss) && MinFirst(d, tss)
    ensures MaxFirst(d, tss + [ts]) && MinFirst(d, tss + [ts])
  {
    if d.maxReading != NegInfinity {
      var w :| w in d.allReadings && w.1 < |tss| && d.allReadings[w] == d.maxReading
                && d.maxTimestamp == tss[w.1]
                && forall other :: other in d.allReadings && other.1 < w.1 ==> Less(d.allReadings[other], d.maxReading);
      assert (tss + [ts])[w.1] == tss[w.1];
    }
    if d.minReading != PosInfinity {
      var u :| u in d.allReadings && u.1 < |tss| && d.allReadings[u] == d.minReading
                && d.minTimestamp == tss[u.1]
                && forall other :: other in d.allReadings && other.1 < u.1 ==> Less(d.minReading, d.allReadings[other]);
      assert (tss + [ts])[u.1] == tss[u.1];
    }
  }
  // ---------------------------------------------------------------------
  // Which logs are accepted.

  /** A log grows well formed by one line when the line is accepted and has the first line's count. */
  lemma WellFormedSnoc(cs: seq<string>, line: string, valid: string -> bool)
    ensures WellFormedLog(cs + [line], valid) <==>
      WellFormedLog(cs, valid) && LineOk(line, valid) && |Readings(line)| == |Readings((cs + [line])[0])|
  {
    var all := cs + [line];
    assert forall k :: 0 <= k < |cs| ==> all[k] == cs[k];
    assert all[|cs|] == line;
    if cs != [] {
      assert all[0] == cs[0];
    }
  }

  /**
   * The pass gets through a log exactly when every counted line has at most
   * MAX_SENSORS readings, all of them valid, and as many as the first
   * counted line.
   */
  lemma {:induction false} RunOkIff(lines: seq<string>, valid: string -> bool, atof: string -> Bound)
    ensures Run(lines, valid, atof).Ok? <==> WellFormedLog(Counted(lines), valid)
    decreases |lines|
  {
    if lines != [] {
      var pre := lines[..|lines| - 1];
      var l := lines[|lines| - 1];
      RunLast(lines, valid, atof);
      RunOkIff(pre, valid, atof);
      if IsBlank(l) {
        assert Counted(lines) == Counted(pre);
      } else {
        assert Counted(lines) == Counted(pre) + [l];
        WellFormedSnoc(Counted(pre), l, valid);
        if Run(pre, valid, atof).Ok? {
          RunCounts(pre, valid, atof);
          assert Run(pre, valid, atof).value.numSensors <= MAX_SENSORS by {
            if Counted(pre) != [] {
              assert LineOk(Counted(pre)[0], valid);
            }
          }
          CountedLineOk(Run(pre, valid, atof).value, l, valid, atof, Counted(pre));
        }
      }
    }
  }

  /** A counted line is read without error exactly when it is accepted and has the first counted line's count. */
  lemma CountedLineOk(d0: SensorData, l: string, valid: string -> bool, atof: string -> Bound, csPre: seq<string>)
    requires !IsBlank(l) && d0.numSensors <= MAX_SENSORS
    requires |csPre| == 0 ==> d0.expectedSensorCount == -1
    requires |csPre| > 0 ==> d0.expectedSensorCount == |Readings(csPre[0])|
    ensures ReadLine(d0, l, valid, atof).Ok? <==> LineOk(l, valid) && |Readings(l)| == |Readings((csPre + [l])[0])|
  {
    var s := d0.(numSensors := 0);
    ReadCountedLine(d0, l, valid, atof);
    ScanOkIff(s, Stamp(l), Readings(l), valid, atof);
    if ScanReadings(s, Stamp(l), Readings(l), valid, atof).Ok? {
      ScanCounters(s, Stamp(l), Readings(l), valid, atof);
    }
    if csPre != [] {
      assert (csPre + [l])[0] == csPre[0];
    }
  }

  /** Scanning a line fails only on the sensor limit or an invalid reading. */
  lemma {:induction false} ScanErrors(s: SensorData, ts: string, toks: seq<string>, valid: string -> bool, atof: string -> Bound)
    ensures ScanReadings(s, ts, toks, valid, atof).Err? ==>
      ScanReadings(s, ts, toks, valid, atof).error.TooManySensors? || ScanReadings(s, ts, toks, valid, atof).error.InvalidReading?
    decreases |toks|
  {
    if toks != [] {
      ScanErrors(s, ts, toks[..|toks| - 1], valid, atof);
    }
  }

  /** The no-data error comes only from the final check, never from a line. */
  lemma {:induction false} RunNeverNoData(lines: seq<string>, valid: string -> bool, atof: string -> Bound)
    ensures Run(lines, valid, atof) != Err(NoData)
    decreases |lines|
  {
    if lines != [] {
      var pre := lines[..|lines| - 1];
      var l := lines[|lines| - 1];
      RunLast(lines, valid, atof);
      RunNeverNoData(pre, valid, atof);
      if Run(pre, valid, atof).Ok? && !IsBlank(l) {
        var d0 := Run(pre, valid, atof).value;
        ReadCountedLine(d0, l, valid, atof);
        ScanErrors(d0.(numSensors := 0), Stamp(l), Readings(l), valid, atof);
      }
    }
  }

  /**
   * The whole ingestion succeeds exactly for a well-formed log with at least
   * one counted line; a well-formed log of blank lines only is the no-data error.
   */
  lemma IngestOkIff(lines: seq<string>, valid: string -> bool, atof: string -> Bound)
    ensures Ingest(lines, valid, atof).Ok? <==> Counted(lines) != [] && WellFormedLog(Counted(lines), valid)
    ensures Ingest(lines, valid, atof) == Err(NoData) <==> Counted(lines) == []
  {
    RunOkIff(lines, valid, atof);
    RunNeverNoData(lines, valid, atof);
    if Run(lines, valid, atof).Ok? {
      RunCounts(lines, valid, atof);
    }
    if Counted(lines) == [] {
      assert WellFormedLog(Counted(lines), valid);
    }
  }

  // ---------------------------------------------------------------------
  // Which error a log that is not accepted ends in.

  /** The position of the first reading valid rejects, or |rt| when it accepts them all. */
  function FirstInvalid(rt: seq<string>, valid: string -> bool): (j: nat)
    ensures j <= |rt|
    ensures forall i :: 0 <= i < j ==> valid(rt[i])
    ensures j < |rt| ==> !valid(rt[j])
    decreases |rt|
  {
    if rt == [] || !valid(rt[0]) then 0 else 1 + FirstInvalid(rt[1..], valid)
  }

  /**
   * The error reading a counted line ends in, when the first counted line
   * carried expected readings: the first invalid reading among the first
   * MAX_SENSORS, else too many readings, else a count that differs; none for
   * a line that is read without error.
   */
  function LineError(line: string, expected: nat, valid: string -> bool): (e: Option<Error>)
    ensures e.None? <==> LineOk(line, valid) && |Readings(line)| == expected
    ensures LineOk(line, valid) && |Readings(line)| != expected ==> e == Some(InconsistentSensorCount)
  {
    var rt := Readings(line);
    var j := FirstInvalid(rt, valid);
    if j < |rt| && j < MAX_SENSORS then Some(InvalidReading(rt[j]))
    else if |rt| > MAX_SENSORS then Some(TooManySensors)
    else if |rt| != expected then Some(InconsistentSensorCount)
    else None
  }

  /** The first m readings, all valid and at most MAX_SENSORS of them, are scanned from column 0 without error. */
  lemma ScanValidPrefix(s: SensorData, ts: string, rt: seq<string>, valid: string -> bool, atof: string -> Bound, m: nat)
    requires s.numSensors == 0 && m <= |rt| && m <= MAX_SENSORS
    requires forall i :: 0 <= i < m ==> valid(rt[i])
    ensures ScanReadings(s, ts, rt[..m], valid, atof).Ok?
    ensures ScanReadings(s, ts, rt[..m], valid, atof).value.numSensors == m
  {
    ScanOkIff(s, ts, rt[..m], valid, atof);
    ScanCounters(s, ts, rt[..m], valid, atof);
  }

  /**
   * Scanning a line's readings from column 0 stops at its first invalid
   * reading when that is among the first MAX_SENSORS, and otherwise at the
   * reading past MAX_SENSORS, if there is one.
   */
  lemma ScanStopsAt(s: SensorData, ts: string, rt: seq<string>, valid: string -> bool, atof: string -> Bound)
    requires s.numSensors == 0
    ensures var j := FirstInvalid(rt, valid);
      && (j < |rt| && j < MAX_SENSORS ==> ScanReadings(s, ts, rt, valid, atof) == Err(InvalidReading(rt[j])))
      && (j >= MAX_SENSORS && |rt| > MAX_SENSORS ==> ScanReadings(s, ts, rt, valid, atof) == Err(TooManySensors))
  {
    var j := FirstInvalid(rt, valid);
    if j < |rt| && j < MAX_SENSORS {
      ScanValidPrefix(s, ts, rt, valid, atof, j);
      ScanOneMore(s, ts, rt, j, valid, atof);
      ScanErrorIsFinal(s, ts, rt, j + 1, InvalidReading(rt[j]), valid, atof);
    } else if j >= MAX_SENSORS && |rt| > MAX_SENSORS {
      ScanValidPrefix(s, ts, rt, valid, atof, MAX_SENSORS);
      ScanOneMore(s, ts, rt, MAX_SENSORS, valid, atof);
      ScanErrorIsFinal(s, ts, rt, MAX_SENSORS + 1, TooManySensors, valid, atof);
    }
  }

  /** A counted line with an error is read with exactly that error. */
  lemma ReadLineError(d0: SensorData, l: string, valid: string -> bool, atof: string -> Bound, expected: nat)
    requires !IsBlank(l)
    requires d0.expectedSensorCount == -1 ==> expected == |Readings(l)|
    requires d0.expectedSensorCount != -1 ==> d0.expectedSensorCount == expected
    requires LineError(l, expected, valid).Some?
    ensures ReadLine(d0, l, valid, atof) == Err(LineError(l, expected, valid).value)
  {
    var s := d0.(numSensors := 0);
    var rt := Readings(l);
    ReadCountedLine(d0, l, valid, atof);
    ScanStopsAt(s, Stamp(l), rt, valid, atof);
    if LineOk(l, valid) {
      ScanOkIff(s, Stamp(l), rt, valid, atof);
      ScanCounters(s, Stamp(l), rt, valid, atof);
    }
  }

  /**
   * The pass stops at the first counted line that is not accepted or whose
   * count differs from the first counted line's, with that line's error:
   * its first invalid reading, too many readings, or the count mismatch.
   */
  lemma {:induction false} RunStopsAtFirstBadLine(lines: seq<string>, valid: string -> bool, atof: string -> Bound, k: nat)
    requires k < |Counted(lines)| && WellFormedLog(Counted(lines)[..k], valid)
    requires LineError(Counted(lines)[k], |Readings(Counted(lines)[0])|, valid).Some?
    ensures Run(lines, valid, atof) == Err(LineError(Counted(lines)[k], |Readings(Counted(lines)[0])|, valid).value)
    ensures Ingest(lines, valid, atof) == Run(lines, valid, atof)
    decreases |lines|
  {
    var pre := lines[..|lines| - 1];
    var l := lines[|lines| - 1];
    RunLast(lines, valid, atof);
    if IsBlank(l) || k < |Counted(pre)| {
      assert Counted(lines)[..k] == Counted(pre)[..k] && Counted(lines)[k] == Counted(pre)[k]
        && Counted(lines)[0] == Counted(pre)[0];
      RunStopsAtFirstBadLine(pre, valid, atof, k);
    } else {
      assert Counted(lines) == Counted(pre) + [l];
      StopsAtLastLine(pre, l, valid, atof);
    }
  }

  /** A first bad line that is the last line read ends the pass with its error. */
  lemma StopsAtLastLine(pre: seq<string>, l: string, valid: string -> bool, atof: string -> Bound)
    requires !IsBlank(l) && WellFormedLog(Counted(pre), valid)
    requires LineError(l, |Readings((Counted(pre) + [l])[0])|, valid).Some?
    ensures Run(pre, valid, atof).Ok?
    ensures ReadLine(Run(pre, valid, atof).value, l, valid, atof)
            == Err(LineError(l, |Readings((Counted(pre) + [l])[0])|, valid).value)
  {
    RunOkIff(pre, valid, atof);
    RunCounts(pre, valid, atof);
    var csPre := Counted(pre);
    if csPre != [] {
      assert (csPre + [l])[0] == csPre[0];
    }
    ReadLineError(Run(pre, valid, atof).value, l, valid, atof, |Readings((csPre + [l])[0])|);
  }

  /** A log that is not well formed has a first counted line with an error. */
  lemma {:induction false} FirstBadLine(cs: seq<string>, valid: string -> bool) returns (k: nat)
    requires !WellFormedLog(cs, valid)
    ensures k < |cs| && WellFormedLog(cs[..k], valid)
    ensures LineError(cs[k], |Readings(cs[0])|, valid).Some?
    decreases |cs|
  {
    var n := |cs| - 1;
    var p := cs[..n];
    if !WellFormedLog(p, valid) {
      k := FirstBadLine(p, valid);
      assert cs[..k] == p[..k] && cs[k] == p[k] && cs[0] == p[0];
    } else {
      k := n;
      assert !(LineOk(cs[n], valid) && |Readings(cs[n])| == |Readings(cs[0])|) by {
        WellFormedSnoc(p, cs[n], valid);
        assert p + [cs[n]] == cs;
      }
    }
  }
}

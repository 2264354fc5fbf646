/**
 * The numeric-token validator of the sensor-log tool (isValidSensorReading).
 *
 * A token is handed over as the characters of a C string; reading at or past
 * its end yields NUL. Scanning stops at the first NUL or newline, so the last
 * token of a line, which still carries its newline, is judged on the
 * characters before it.
 *
 * The grammar is stated on index ranges of the token: s[lo..hi] below means
 * the characters at indices lo to hi - 1.
 */
module SensorToken {

  predicate IsDigit(c: char) { '0' <= c <= '9' }
  predicate IsSign(c: char) { c == '+' || c == '-' }
  predicate IsExpMarker(c: char) { c == 'e' || c == 'E' }
  predicate IsStop(c: char) { c == '\0' || c == '\n' }

  /** The character at index i of the C string whose characters are s. */
  function At(s: seq<char>, i: nat): char
  {
    if i < |s| then s[i] else '\0'
  }

  // ---------------------------------------------------------------------
  // Searching for the first stop character and the first exponent marker.

  /** Index of the first stop character of s at or after j, or |s| when there is none. */
  function StopFrom(s: seq<char>, j: nat): (r: nat)
    requires j <= |s|
    ensures j <= r <= |s|
    decreases |s| - j
  {
    if j == |s| || IsStop(s[j]) then j else StopFrom(s, j + 1)
  }

  /** Index of the first NUL or newline of s: the validator looks at s[0..StopIndex(s)]. */
  function StopIndex(s: seq<char>): (n: nat)
    ensures n <= |s|
  {
    StopFrom(s, 0)
  }

  /** StopFrom finds the first stop character. */
  lemma {:induction false} StopFromSpec(s: seq<char>, j: nat)
    requires j <= |s|
    ensures forall t :: j <= t < StopFrom(s, j) ==> !IsStop(s[t])
    ensures StopFrom(s, j) < |s| ==> IsStop(s[StopFrom(s, j)])
    decreases |s| - j
  {
    if j < |s| && !IsStop(s[j]) {
      StopFromSpec(s, j + 1);
    }
  }

  /** The first stop character at or after j is at r. */
  lemma {:induction false} StopFromIs(s: seq<char>, j: nat, r: nat)
    requires j <= r <= |s|
    requires forall t :: j <= t < r ==> !IsStop(s[t])
    requires r == |s| || IsStop(s[r])
    ensures StopFrom(s, j) == r
    decreases r - j
  {
    if j < r {
      StopFromIs(s, j + 1, r);
    }
  }

  /** Index of the first exponent marker of s[j..n], or n when there is none. */
  function ExpFrom(s: seq<char>, j: nat, n: nat): (r: nat)
    requires j <= n <= |s|
    ensures j <= r <= n
    decreases n - j
  {
    if j == n || IsExpMarker(s[j]) then j else ExpFrom(s, j + 1, n)
  }

  /** ExpFrom finds the first exponent marker. */
  lemma {:induction false} ExpFromSpec(s: seq<char>, j: nat, n: nat)
    requires j <= n <= |s|
    ensures forall t :: j <= t < ExpFrom(s, j, n) ==> !IsExpMarker(s[t])
    ensures ExpFrom(s, j, n) < n ==> IsExpMarker(s[ExpFrom(s, j, n)])
    decreases n - j
  {
    if j < n && !IsExpMarker(s[j]) {
      ExpFromSpec(s, j + 1, n);
    }
  }

  /** The first exponent marker of s[j..n] is at r. */
  lemma {:induction false} ExpFromIs(s: seq<char>, j: nat, n: nat, r: nat)
    requires j <= r <= n <= |s|
    requires forall t :: j <= t < r ==> !IsExpMarker(s[t])
    requires r == n || IsExpMarker(s[r])
    ensures ExpFrom(s, j, n) == r
    decreases r - j
  {
    if j < r {
      ExpFromIs(s, j + 1, n, r);
    }
  }

  // ---------------------------------------------------------------------
  // The grammar of a reading.

  /** Length (0 or 1) of an optional sign at index j of s[..n]. */
  function SignAt(s: seq<char>, j: nat, n: nat): (len: nat)
    requires n <= |s|
    ensures len <= 1 && (len == 1 ==> j < n && IsSign(s[j]))
  {
    if j < n && IsSign(s[j]) then 1 else 0
  }

  predicate DigitsIn(s: seq<char>, lo: nat, hi: nat)
    requires lo <= hi <= |s|
  {
    forall t :: lo <= t < hi ==> IsDigit(s[t])
  }

  predicate DigitsOrDotsIn(s: seq<char>, lo: nat, hi: nat)
    requires lo <= hi <= |s|
  {
    forall t :: lo <= t < hi ==> IsDigit(s[t]) || s[t] == '.'
  }

  predicate AtMostOneDotIn(s: seq<char>, lo: nat, hi: nat)
    requires lo <= hi <= |s|
  {
    forall t, u :: lo <= t < u < hi ==> !(s[t] == '.' && s[u] == '.')
  }

  predicate HasDigitIn(s: seq<char>, lo: nat, hi: nat)
    requires lo <= hi <= |s|
  {
    exists t :: lo <= t < hi && IsDigit(s[t])
  }

  /** s[lo..hi] is a mantissa: digits and at most one dot, with at least one digit. */
  predicate MantissaIn(s: seq<char>, lo: nat, hi: nat)
    requires lo <= hi <= |s|
  {
    DigitsOrDotsIn(s, lo, hi) && AtMostOneDotIn(s, lo, hi) && HasDigitIn(s, lo, hi)
  }

  /** s[lo..n] is an exponent: an optional sign, then one or more digits. */
  predicate ExponentIn(s: seq<char>, lo: nat, n: nat)
    requires lo <= n <= |s|
  {
    var d := lo + SignAt(s, lo, n);
    d < n && DigitsIn(s, d, n)
  }

  /**
   * s[..n] is a reading: an optional sign, a mantissa up to the first
   * exponent marker, and, when there is a marker, an exponent after it.
   */
  predicate Reading(s: seq<char>, n: nat)
    requires n <= |s|
  {
    var k := SignAt(s, 0, n);
    var p := ExpFrom(s, k, n);
    MantissaIn(s, k, p) && (p == n || ExponentIn(s, p + 1, n))
  }

  /** The token is a valid sensor reading: its characters before the first stop form a reading. */
  predicate ValidReading(s: seq<char>)
  {
    Reading(s, StopIndex(s))
  }

  // ---------------------------------------------------------------------
  // The scanner's state after looking at str[0..i]: k is the length of the
  // skipped sign and p the index of the exponent marker once one was seen.

  /** Before any marker: what the flags record about the mantissa scanned so far. */
  ghost predicate MantissaSoFar(str: seq<char>, k: nat, i: nat, hasDigit: bool, hasDot: bool)
    requires k <= i <= |str|
  {
    && DigitsOrDotsIn(str, k, i)
    && AtMostOneDotIn(str, k, i)
    && (hasDot <==> exists t :: k <= t < i && str[t] == '.')
    && (hasDigit <==> HasDigitIn(str, k, i))
  }

  ghost predicate Scanned(str: seq<char>, k: nat, i: nat, hasDigit: bool, hasDot: bool, hasEe: bool, p: nat)
  {
    && k <= i <= StopIndex(str)
    && k == SignAt(str, 0, StopIndex(str))
    && (!hasEe ==> MantissaSoFar(str, k, i, hasDigit, hasDot))
    && (hasEe ==>
          && hasDigit && k <= p && p + 1 < i
          && IsExpMarker(str[p]) && MantissaIn(str, k, p)
          && p + 1 + SignAt(str, p + 1, i) < i && DigitsIn(str, p + 1 + SignAt(str, p + 1, i), i))
  }

  /** Index i lies before the first stop, and the character there is no stop. */
  lemma PastNonStop(s: seq<char>, i: nat)
    requires i <= StopIndex(s) && i < |s| && !IsStop(s[i])
    ensures i + 1 <= StopIndex(s)
  {
    StopFromSpec(s, 0);
  }

  lemma ScanStart(str: seq<char>, k: nat)
    requires k == (if IsSign(At(str, 0)) then 1 else 0)
    ensures Scanned(str, k, k, false, false, false, 0)
  {
    if k == 1 {
      PastNonStop(str, 0);
    }
  }

  lemma AdvanceDigit(str: seq<char>, k: nat, i: nat, hasDigit: bool, hasDot: bool, hasEe: bool, p: nat)
    requires Scanned(str, k, i, hasDigit, hasDot, hasEe, p)
    requires i < |str| && IsDigit(str[i])
    ensures Scanned(str, k, i + 1, true, hasDot, hasEe, p)
  {
    PastNonStop(str, i);
    if hasEe {
      assert SignAt(str, p + 1, i + 1) == SignAt(str, p + 1, i);
    }
  }

  lemma AdvanceDot(str: seq<char>, k: nat, i: nat, hasDigit: bool, p: nat)
    requires Scanned(str, k, i, hasDigit, false, false, p)
    requires i < |str| && str[i] == '.'
    ensures Scanned(str, k, i + 1, hasDigit, true, false, p)
  {
    PastNonStop(str, i);
  }

  /** The marker at q, an optional sign, and the digit at e are taken in one step. */
  lemma AdvanceExponent(str: seq<char>, k: nat, q: nat, hasDot: bool, p: nat, e: nat)
    requires Scanned(str, k, q, true, hasDot, false, p)
    requires q < |str| && IsExpMarker(str[q])
    requires e == q + 1 || (e == q + 2 && q + 1 < |str| && IsSign(str[q + 1]))
    requires e < |str| && IsDigit(str[e])
    ensures Scanned(str, k, e + 1, true, hasDot, true, q)
  {
    PastNonStop(str, q);
    if e == q + 2 {
      PastNonStop(str, q + 1);
    }
    PastNonStop(str, e);
    assert SignAt(str, q + 1, e + 1) == e - q - 1;
  }

  /**
   * Whether the scan gives up on character c, given what it has seen: a dot
   * after a dot or in the exponent, a marker in the exponent or before any
   * digit, and any character other than a digit, dot or marker.
   */
  predicate Rejects(c: char, hasDigit: bool, hasDot: bool, hasEe: bool)
  {
    if IsDigit(c) then false
    else if c == '.' then hasDot || hasEe
    else if IsExpMarker(c) then hasEe || !hasDigit
    else true
  }

  /** A character other than a digit after the exponent's first digit. */
  lemma RejectInExponent(str: seq<char>, k: nat, i: nat, hasDigit: bool, hasDot: bool, p: nat)
    requires Scanned(str, k, i, hasDigit, hasDot, true, p)
    requires i < |str| && !IsStop(str[i]) && !IsDigit(str[i])
    ensures !ValidReading(str)
  {
    PastNonStop(str, i);
    var n := StopIndex(str);
    ExpFromIs(str, k, n, p);
    assert SignAt(str, p + 1, n) == SignAt(str, p + 1, i);
  }

  /** An exponent marker before any digit. */
  lemma RejectMarkerFirst(str: seq<char>, k: nat, i: nat, hasDot: bool, p: nat)
    requires Scanned(str, k, i, false, hasDot, false, p)
    requires i < |str| && IsExpMarker(str[i])
    ensures !ValidReading(str)
  {
    PastNonStop(str, i);
    ExpFromIs(str, k, StopIndex(str), i);
  }

  /** A second dot, or a character that is neither digit, dot nor marker, before any marker. */
  lemma RejectInMantissa(str: seq<char>, k: nat, i: nat, hasDigit: bool, hasDot: bool, p: nat)
    requires Scanned(str, k, i, hasDigit, hasDot, false, p)
    requires i < |str| && !IsStop(str[i]) && !IsDigit(str[i]) && !IsExpMarker(str[i])
    requires str[i] == '.' ==> hasDot
    ensures !ValidReading(str)
  {
    PastNonStop(str, i);
    var n := StopIndex(str);
    ExpFromSpec(str, k, n);
    var f := ExpFrom(str, k, n);
    assert f > i;
    if str[i] == '.' {
      var t :| k <= t < i && str[t] == '.';
      assert !AtMostOneDotIn(str, k, f);
    } else {
      assert !DigitsOrDotsIn(str, k, f);
    }
  }

  /** Every character the scan gives up on makes the token invalid. */
  lemma RejectAt(str: seq<char>, k: nat, i: nat, hasDigit: bool, hasDot: bool, hasEe: bool, p: nat)
    requires Scanned(str, k, i, hasDigit, hasDot, hasEe, p)
    requires i < |str| && !IsStop(str[i]) && Rejects(str[i], hasDigit, hasDot, hasEe)
    ensures !ValidReading(str)
  {
    if hasEe {
      RejectInExponent(str, k, i, hasDigit, hasDot, p);
    } else if IsExpMarker(str[i]) {
      RejectMarkerFirst(str, k, i, hasDot, p);
    } else {
      RejectInMantissa(str, k, i, hasDigit, hasDot, p);
    }
  }

  /** The marker at q is followed, after an optional sign, by something other than a digit. */
  lemma RejectExponentTail(str: seq<char>, k: nat, q: nat, hasDot: bool, p: nat, e: nat)
    requires Scanned(str, k, q, true, hasDot, false, p)
    requires q < |str| && IsExpMarker(str[q])
    requires e == q + 1 || (e == q + 2 && q + 1 < |str| && IsSign(str[q + 1]))
    requires e == q + 1 ==> !IsSign(At(str, e))
    requires !IsDigit(At(str, e))
    ensures !ValidReading(str)
  {
    PastNonStop(str, q);
    var n := StopIndex(str);
    ExpFromIs(str, k, n, q);
    if e == q + 2 {
      PastNonStop(str, q + 1);
    }
    assert q + 1 + SignAt(str, q + 1, n) == e;
  }

  /** At the first stop character the scan's verdict is the grammar's. */
  lemma AcceptAtStop(str: seq<char>, k: nat, i: nat, hasDigit: bool, hasDot: bool, hasEe: bool, p: nat)
    requires Scanned(str, k, i, hasDigit, hasDot, hasEe, p)
    requires IsStop(At(str, i))
    ensures ValidReading(str) <==> hasDigit
  {
    StopFromSpec(str, 0);
    StopFromIs(str, 0, i);
    if hasEe {
      ExpFromIs(str, k, i, p);
    } else {
      ExpFromIs(str, k, i, i);
    }
  }

  /**
   * The per-character scan of the source: a leading sign is skipped, then
   * digits, one dot (never after the exponent) and one exponent marker (after
   * a digit, followed by an optional sign and a digit) are accepted up to the
   * first NUL or newline; the token is valid when a digit was seen.
   */
  method IsValidSensorReading(str: seq<char>) returns (valid: bool)
    ensures valid <==> ValidReading(str)
  {
    var hasDigit, hasEe, hasDot := false, false, false;
    var i: nat := 0;
    if At(str, i) == '+' || At(str, i) == '-' {
      i := i + 1;
    }
    ghost var k := i;
    ghost var p: nat := 0;
    ScanStart(str, k);
    while At(str, i) != '\0' && At(str, i) != '\n'
      invariant Scanned(str, k, i, hasDigit, hasDot, hasEe, p)
      decreases |str| - i
    {
      var c := At(str, i);
      if IsDigit(c) {
        AdvanceDigit(str, k, i, hasDigit, hasDot, hasEe, p);
        hasDigit := true;
      } else if c == '.' {
        if hasDot || hasEe {
          RejectAt(str, k, i, hasDigit, hasDot, hasEe, p);
          return false;
        }
        AdvanceDot(str, k, i, hasDigit, p);
        hasDot := true;
      } else if c == 'e' || c == 'E' {
        if hasEe || !hasDigit {
          RejectAt(str, k, i, hasDigit, hasDot, hasEe, p);
          return false;
        }
        ghost var q := i;
        hasEe := true;
        i := i + 1;
        if At(str, i) == '+' || At(str, i) == '-' {
          i := i + 1;
        }
        if !IsDigit(At(str, i)) {
          RejectExponentTail(str, k, q, hasDot, p, i);
          return false;
        }
        AdvanceExponent(str, k, q, hasDot, p, i);
        p := q;
      } else {
        RejectAt(str, k, i, hasDigit, hasDot, hasEe, p);
        return false;
      }
      i := i + 1;
    }
    AcceptAtStop(str, k, i, hasDigit, hasDot, hasEe, p);
    return hasDigit;
  }

  // ---------------------------------------------------------------------
  // What a valid reading looks like, below its first stop character.

  /** Which part of a valid reading the character at index j belongs to. */
  lemma Classify(s: seq<char>, j: nat)
    requires ValidReading(s) && j < StopIndex(s)
    ensures var n := StopIndex(s);
      var k := SignAt(s, 0, n);
      var p := ExpFrom(s, k, n);
      || (j == 0 && k == 1 && IsSign(s[j]))
      || (k <= j < p && (IsDigit(s[j]) || s[j] == '.'))
      || (j == p && IsExpMarker(s[j]))
      || (j == p + 1 && IsSign(s[j]))
      || (p < j && IsDigit(s[j]) && (j > p + 1 || SignAt(s, p + 1, n) == 0))
  {
    var n := StopIndex(s);
    ExpFromSpec(s, SignAt(s, 0, n), n);
  }

  /** A sign is accepted only first, or right after the exponent marker. */
  lemma SignPlacement(s: seq<char>)
    requires ValidReading(s)
    ensures forall j :: 0 <= j < StopIndex(s) && IsSign(s[j]) ==> j == 0 || IsExpMarker(s[j - 1])
  {
    forall j | 0 <= j < StopIndex(s) && IsSign(s[j]) ensures j == 0 || IsExpMarker(s[j - 1]) {
      Classify(s, j);
      if j > 0 {
        Classify(s, j - 1);
      }
    }
  }

  /** At most one dot, and no dot after the exponent marker. */
  lemma DotPlacement(s: seq<char>)
    requires ValidReading(s)
    ensures forall j, j' :: 0 <= j < j' < StopIndex(s) ==> !(s[j] == '.' && s[j'] == '.')
    ensures forall j, j' :: 0 <= j < j' < StopIndex(s) && IsExpMarker(s[j]) ==> s[j'] != '.'
  {
    forall j, j' | 0 <= j < j' < StopIndex(s) ensures !(s[j] == '.' && s[j'] == '.') {
      Classify(s, j);
      Classify(s, j');
    }
    forall j, j' | 0 <= j < j' < StopIndex(s) && IsExpMarker(s[j]) ensures s[j'] != '.' {
      Classify(s, j);
      Classify(s, j');
    }
  }

  /** At most one exponent marker. */
  lemma SingleExponent(s: seq<char>)
    requires ValidReading(s)
    ensures forall j, j' :: 0 <= j < j' < StopIndex(s) ==> !(IsExpMarker(s[j]) && IsExpMarker(s[j']))
  {
    forall j, j' | 0 <= j < j' < StopIndex(s) ensures !(IsExpMarker(s[j]) && IsExpMarker(s[j'])) {
      Classify(s, j);
      Classify(s, j');
    }
  }

  /**
   * An exponent marker that the validator accepts has a digit before it, and
   * a digit, or a sign and then a digit, after it.
   */
  lemma ExponentNeighbours(s: seq<char>, j: nat)
    requires ValidReading(s) && j < StopIndex(s) && IsExpMarker(s[j])
    ensures exists t :: 0 <= t < j && IsDigit(s[t])
    ensures j + 1 < StopIndex(s)
    ensures IsDigit(s[j + 1]) || (IsSign(s[j + 1]) && j + 2 < StopIndex(s) && IsDigit(s[j + 2]))
  {
    Classify(s, j);
  }

  /** Every valid reading holds a digit. */
  lemma ValidHasDigit(s: seq<char>)
    requires ValidReading(s)
    ensures exists t :: 0 <= t < StopIndex(s) && IsDigit(s[t])
  {
  }

  /** The verdict depends only on the characters before the first stop. */
  lemma {:induction false} ExpFromSame(s: seq<char>, s': seq<char>, j: nat, n: nat)
    requires j <= n <= |s| && n <= |s'| && s[..n] == s'[..n]
    ensures ExpFrom(s, j, n) == ExpFrom(s', j, n)
    decreases n - j
  {
    if j < n {
      assert s[j] == s[..n][j] == s'[j];
      ExpFromSame(s, s', j + 1, n);
    }
  }

  /** Whether s[..n] is a reading depends on those characters only. */
  lemma ReadingSame(s: seq<char>, s': seq<char>, n: nat)
    requires n <= |s| && n <= |s'| && s[..n] == s'[..n]
    ensures Reading(s, n) == Reading(s', n)
  {
    forall t | 0 <= t < n ensures s[t] == s'[t] {
      assert s[t] == s[..n][t];
    }
    ExpFromSame(s, s', SignAt(s, 0, n), n);
  }

  /** The newline that the last token of a line keeps does not change the verdict. */
  lemma TrailingNewline(t: seq<char>, rest: seq<char>)
    requires StopIndex(t) == |t|
    ensures ValidReading(t + ['\n'] + rest) <==> ValidReading(t)
  {
    var s := t + ['\n'] + rest;
    assert StopIndex(s) == |t| by {
      StopFromSpec(t, 0);
      StopFromIs(s, 0, |t|);
    }
    assert s[..|t|] == t[..|t|];
    ReadingSame(s, t, |t|);
  }

  // ---------------------------------------------------------------------
  // The converse: every sign, mantissa and exponent put together is accepted.

  /** s[..n] is a reading when it splits into a sign, a mantissa up to the first marker p, and an exponent. */
  lemma ReadingAt(s: seq<char>, n: nat, k: nat, p: nat)
    requires n <= |s| && k == SignAt(s, 0, n) && k <= p <= n
    requires forall t :: k <= t < p ==> !IsExpMarker(s[t])
    requires p == n || IsExpMarker(s[p])
    requires MantissaIn(s, k, p) && (p == n || ExponentIn(s, p + 1, n))
    ensures Reading(s, n)
  {
    ExpFromIs(s, k, n, p);
  }

  /** A reading built from an optional sign, a mantissa and an optional exponent is valid. */
  lemma Accepts(sg: seq<char>, m: seq<char>, ex: seq<char>)
    requires |sg| <= 1 && (|sg| == 1 ==> IsSign(sg[0]))
    requires MantissaIn(m, 0, |m|)
    requires ex == [] || (IsExpMarker(ex[0]) && ExponentIn(ex, 1, |ex|))
    ensures ValidReading(sg + m + ex)
  {
    var s := sg + m + ex;
    var k, p := |sg|, |sg| + |m|;
    assert forall t :: k <= t < p ==> s[t] == m[t - k];
    assert forall t :: p <= t < |s| ==> s[t] == ex[t - p];
    assert StopIndex(s) == |s| by {
      forall t | p <= t < |s| ensures !IsStop(s[t]) {
        if t > p + SignAt(ex, 1, |ex|) {
          assert IsDigit(ex[t - p]);
        }
      }
      StopFromIs(s, 0, |s|);
    }
    assert SignAt(s, 0, |s|) == k by {
      if k == 0 {
        assert s[0] == m[0];
      }
    }
    assert MantissaIn(s, k, p) by {
      var w :| 0 <= w < |m| && IsDigit(m[w]);
      assert IsDigit(s[k + w]);
    }
    assert p == |s| || ExponentIn(s, p + 1, |s|) by {
      if ex != [] {
        assert SignAt(s, p + 1, |s|) == SignAt(ex, 1, |ex|);
      }
    }
    ReadingAt(s, |s|, k, p);
  }

  /**
   * A fixed-point rendering such as the report's two-decimal means: an
   * optional minus, one or more digits, a dot and digits. The validator
   * accepts it, so the report's numbers read back as readings.
   */
  lemma FixedPointAccepted(negative: bool, whole: seq<char>, frac: seq<char>)
    requires whole != [] && DigitsIn(whole, 0, |whole|) && DigitsIn(frac, 0, |frac|)
    ensures ValidReading((if negative then "-" else "") + whole + "." + frac)
  {
    var m := whole + "." + frac;
    var d := |whole|;
    assert forall t :: 0 <= t < |m| && t != d ==> IsDigit(m[t]) by {
      forall t | 0 <= t < |m| && t != d ensures IsDigit(m[t]) {
        if t < d {
          assert m[t] == whole[t];
        } else {
          assert m[t] == frac[t - d - 1];
        }
      }
    }
    assert IsDigit(m[0]);
    var sg: seq<char> := if negative then "-" else "";
    Accepts(sg, m, []);
    assert sg + m + [] == sg + whole + "." + frac;
  }

  /** A plain decimal is accepted. */
  lemma AcceptsDecimal()
    ensures ValidReading("3.14")
  {
    FixedPointAccepted(false, "3", "14");
    assert "" + "3" + "." + "14" == "3.14";
  }

  /** Readings with a signed exponent are accepted. */
  lemma AcceptsSignedExponent()
    ensures ValidReading("-2.5e-3")
  {
    assert IsDigit("2.5"[0]);
    assert ExponentIn("e-3", 1, 3);
    Accepts("-", "2.5", "e-3");
    assert "-" + "2.5" + "e-3" == "-2.5e-3";
  }

  lemma AcceptsLongExponent()
    ensures ValidReading("2.5e-10")
  {
    assert IsDigit("2.5"[0]);
    assert ExponentIn("e-10", 1, 4);
    Accepts("", "2.5", "e-10");
    assert "" + "2.5" + "e-10" == "2.5e-10";
  }

  /** Tokens without a digit are rejected: empty, a lone sign or dot, a bare newline, letters. */
  lemma RejectsWithoutDigit()
    ensures !ValidReading("") && !ValidReading("+") && !ValidReading(".")
    ensures !ValidReading("\n") && !ValidReading("abc")
  {
    StopFromIs("+", 0, 1);
    StopFromIs(".", 0, 1);
    StopFromIs("abc", 0, 3);
    StopFromIs("\n", 0, 0);
    if ValidReading("+") { ValidHasDigit("+"); }
    if ValidReading(".") { ValidHasDigit("."); }
    if ValidReading("abc") { ValidHasDigit("abc"); }
  }

  /** A sign inside the mantissa is rejected. */
  lemma RejectsInnerSign()
    ensures !ValidReading("1-2")
  {
    StopFromIs("1-2", 0, 3);
    if ValidReading("1-2") {
      SignPlacement("1-2");
      assert IsSign("1-2"[1]);
    }
  }

  /** An exponent marker without digits after it is rejected. */
  lemma RejectsIncompleteExponent()
    ensures !ValidReading("1e") && !ValidReading("1e+")
  {
    StopFromIs("1e", 0, 2);
    if ValidReading("1e") {
      ExponentNeighbours("1e", 1);
    }
    StopFromIs("1e+", 0, 3);
    if ValidReading("1e+") {
      ExponentNeighbours("1e+", 1);
    }
  }

  /** A second dot is rejected. */
  lemma RejectsSecondDot()
    ensures !ValidReading("1.2.3")
  {
    StopFromIs("1.2.3", 0, 5);
    assert "1.2.3"[1] == '.' && "1.2.3"[3] == '.';
    if ValidReading("1.2.3") {
      DotPlacement("1.2.3");
    }
  }
}

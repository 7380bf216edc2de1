/** The package-level defaults of const.go and its two time-of-day regular
    expressions.  `OnlyTime` and `ApplyTime` read the expressions as written,
    in RE2's terms: `\s` is one of space, tab, newline, form feed and carriage
    return, `\d` is an ASCII digit, `^` and `$` hold only at the ends of the
    input, and a match of the unanchored expression may start anywhere.
    `MatchOnlyTime` and `MatchApplyTime` are index-based scanners proved to
    accept exactly the same strings: the first makes one pass, the second
    restarts it at every start position and so takes quadratic time. */
module Const {
  import opened Clock

  /** The package's default first day of the week. */
  const WeekStartDay: Weekday := Sunday

  predicate IsSpace(c: char)
  {
    c == ' ' || c == '\t' || c == '\n' || c == '\U{0C}' || c == '\r'
  }

  predicate IsDigit(c: char)
  {
    '0' <= c <= '9'
  }

  /** A character that can occur inside the time itself. */
  predicate IsTimeChar(c: char)
  {
    IsDigit(c) || c == ':' || c == '.'
  }

  predicate AllSpace(s: string)
  {
    forall i | 0 <= i < |s| :: IsSpace(s[i])
  }

  predicate AllDigits(s: string)
  {
    forall i | 0 <= i < |s| :: IsDigit(s[i])
  }

  /** `\d{1,2}` */
  predicate TwoDigits(s: string)
  {
    1 <= |s| <= 2 && AllDigits(s)
  }

  /** `(:\d{1,2})*` */
  ghost predicate ColonGroups(s: string)
    decreases |s|
  {
    |s| == 0 || (s[0] == ':' && exists j | 2 <= j <= 3 && j <= |s| :: TwoDigits(s[1..j]) && ColonGroups(s[j..]))
  }

  /** `\d{3}|\d{6}|\d{9}` */
  predicate Fraction(s: string)
  {
    (|s| == 3 || |s| == 6 || |s| == 9) && AllDigits(s)
  }

  /** `(:\d{1,2}){2}\.(\d{3}|\d{6}|\d{9})` */
  ghost predicate FracTail(s: string)
  {
    exists i, j | 2 <= i <= 3 && i + 2 <= j <= i + 3 && j < |s| ::
      s[0] == ':' && TwoDigits(s[1..i]) && s[i] == ':' && TwoDigits(s[i + 1..j]) && s[j] == '.' && Fraction(s[j + 1..])
  }

  /** `\d{1,2}((:\d{1,2})*|((:\d{1,2}){2}\.(\d{3}|\d{6}|\d{9})))` */
  ghost predicate Core(s: string)
  {
    exists j | 1 <= j <= 2 && j <= |s| :: TwoDigits(s[..j]) && (ColonGroups(s[j..]) || FracTail(s[j..]))
  }

  /** `OnlyTimeRegexp`: `^\s*` Core `\s*$`. */
  ghost predicate OnlyTime(s: string)
  {
    exists a, b | 0 <= a <= b <= |s| :: AllSpace(s[..a]) && Core(s[a..b]) && AllSpace(s[b..])
  }

  /** `(\s+|^\s*|T)` ending at position `k`. */
  ghost predicate Lead(s: string, k: int)
    requires 0 <= k <= |s|
  {
    (exists i | 0 <= i < k :: AllSpace(s[i..k])) || AllSpace(s[..k]) || (0 < k && s[k - 1] == 'T')
  }

  /** `(\s*$|[Z+-])` starting at position `e`. */
  predicate Trail(s: string, e: int)
    requires 0 <= e <= |s|
  {
    AllSpace(s[e..]) || (e < |s| && (s[e] == 'Z' || s[e] == '+' || s[e] == '-'))
  }

  /** `ApplyTimeRegexp`: the expression matches somewhere in `s`. */
  ghost predicate ApplyTime(s: string)
  {
    exists k, e | 0 <= k <= e <= |s| :: Lead(s, k) && Core(s[k..e]) && Trail(s, e)
  }

  /** Length of the run of digits starting at `i`. */
  function DigitRun(s: string, i: int): (n: nat)
    requires 0 <= i <= |s|
    ensures i + n <= |s| && (forall k | i <= k < i + n :: IsDigit(s[k]))
    ensures i + n == |s| || !IsDigit(s[i + n])
    decreases |s| - i
  {
    if i == |s| || !IsDigit(s[i]) then 0 else 1 + DigitRun(s, i + 1)
  }

  /** The run of digits is the only digit prefix followed by a non-digit. */
  lemma DigitRunIs(s: string, i: int, n: int)
    requires 0 <= i && 0 <= n && i + n <= |s| && (forall k | i <= k < i + n :: IsDigit(s[k]))
    requires i + n == |s| || !IsDigit(s[i + n])
    ensures DigitRun(s, i) == n
  {
  }

  /** Number of whitespace characters at the start of `s`. */
  function LeadingSpaces(s: string): (n: nat)
    ensures n <= |s| && (forall k | 0 <= k < n :: IsSpace(s[k]))
    ensures n == |s| || !IsSpace(s[n])
  {
    if |s| == 0 || !IsSpace(s[0]) then 0 else 1 + LeadingSpaces(s[1..])
  }

  /** Number of whitespace characters at the end of `s`. */
  function TrailingSpaces(s: string): (n: nat)
    ensures n <= |s| && (forall k | |s| - n <= k < |s| :: IsSpace(s[k]))
    ensures n == |s| || !IsSpace(s[|s| - n - 1])
  {
    if |s| == 0 || !IsSpace(s[|s| - 1]) then 0 else 1 + TrailingSpaces(s[..|s| - 1])
  }

  /** Length of the run of time characters (digits, ':' and '.') starting at `i`. */
  function TimeCharRun(s: string, i: int): (n: nat)
    requires 0 <= i <= |s|
    ensures i + n <= |s| && (forall k | i <= k < i + n :: IsTimeChar(s[k]))
    ensures i + n == |s| || !IsTimeChar(s[i + n])
    decreases |s| - i
  {
    if i == |s| || !IsTimeChar(s[i]) then 0 else 1 + TimeCharRun(s, i + 1)
  }

  lemma TimeCharRunIs(s: string, i: int, n: int)
    requires 0 <= i && 0 <= n && i + n <= |s| && (forall k | i <= k < i + n :: IsTimeChar(s[k]))
    requires i + n == |s| || !IsTimeChar(s[i + n])
    ensures TimeCharRun(s, i) == n
  {
  }

  lemma LeadingSpacesIs(s: string, n: int)
    requires 0 <= n <= |s| && (forall k | 0 <= k < n :: IsSpace(s[k]))
    requires n == |s| || !IsSpace(s[n])
    ensures LeadingSpaces(s) == n
  {
  }

  lemma TrailingSpacesIs(s: string, n: int)
    requires 0 <= n <= |s| && (forall k | |s| - n <= k < |s| :: IsSpace(s[k]))
    requires n == |s| || !IsSpace(s[|s| - n - 1])
    ensures TrailingSpaces(s) == n
  {
  }

  /** `\d{1,2}` read by its digit run: one or two digits, then no digit. */
  lemma TwoDigitsRun(s: string, i: int, j: int)
    requires 0 <= i <= j <= |s|
    requires TwoDigits(s[i..j]) && (j == |s| || !IsDigit(s[j]))
    ensures DigitRun(s, i) == j - i
  {
    assert forall k | i <= k < j :: s[k] == s[i..j][k - i];
    DigitRunIs(s, i, j - i);
  }

  lemma RunTwoDigits(s: string, i: int)
    requires 0 <= i <= |s| && 1 <= DigitRun(s, i) <= 2
    ensures TwoDigits(s[i..i + DigitRun(s, i)])
  {
    var n := DigitRun(s, i);
    assert forall k | i <= k < i + n :: s[k] == s[i..i + n][k - i];
  }

  /** `:\d{1,2}` at position `i`, scanned greedily: a colon and the whole run of digits after it. */
  predicate GroupAt(t: string, i: int)
    requires 0 <= i <= |t|
  {
    i < |t| && t[i] == ':' && 1 <= DigitRun(t, i + 1) <= 2
  }

  /** Where the group scanned at `i` ends. */
  function GroupEnd(t: string, i: int): int
    requires 0 <= i < |t|
  {
    i + 1 + DigitRun(t, i + 1)
  }

  lemma GroupSound(t: string, i: int)
    requires 0 <= i <= |t| && GroupAt(t, i)
    ensures var j := GroupEnd(t, i);
            && j <= |t| && TwoDigits(t[i + 1..j]) && (j == |t| || !IsDigit(t[j]))
  {
    RunTwoDigits(t, i + 1);
  }

  lemma GroupComplete(t: string, i: int, j: int)
    requires 0 <= i < j <= |t| && t[i] == ':' && TwoDigits(t[i + 1..j]) && (j == |t| || !IsDigit(t[j]))
    ensures GroupAt(t, i) && GroupEnd(t, i) == j
  {
    TwoDigitsRun(t, i + 1, j);
  }

  /** `(:\d{1,2})*` from position `i` to the end, scanned group by group. */
  predicate GroupsAt(t: string, i: int)
    requires 0 <= i <= |t|
    decreases |t| - i
  {
    i == |t| || (GroupAt(t, i) && GroupsAt(t, GroupEnd(t, i)))
  }

  lemma {:induction false} GroupsAtSound(t: string, i: int)
    requires 0 <= i <= |t| && GroupsAt(t, i)
    ensures ColonGroups(t[i..])
    decreases |t| - i
  {
    if i < |t| {
      var j := GroupEnd(t, i);
      GroupSound(t, i);
      GroupsAtSound(t, j);
      var u := t[i..];
      assert u[1..j - i] == t[i + 1..j];
      assert u[j - i..] == t[j..];
      assert TwoDigits(u[1..j - i]) && ColonGroups(u[j - i..]);
    }
  }

  lemma GroupShift(t: string, i: int, j: int)
    requires 0 <= i && 1 <= j && i + j <= |t|
    ensures t[i..][0] == t[i] && t[i..][1..j] == t[i + 1..i + j] && t[i..][j..] == t[i + j..]
    ensures i + j < |t| ==> t[i..][j] == t[i + j]
  {
  }

  lemma {:induction false} GroupsAtComplete(t: string, i: int)
    requires 0 <= i <= |t| && ColonGroups(t[i..])
    ensures GroupsAt(t, i)
    decreases |t| - i
  {
    if i < |t| {
      var u := t[i..];
      var j :| 2 <= j <= 3 && j <= |u| && TwoDigits(u[1..j]) && ColonGroups(u[j..]);
      GroupShift(t, i, j);
      GroupsAtComplete(t, i + j);
      GroupComplete(t, i, i + j);
    }
  }

  lemma GroupsAtIff(t: string, i: int)
    requires 0 <= i <= |t|
    ensures GroupsAt(t, i) <==> ColonGroups(t[i..])
  {
    if GroupsAt(t, i) {
      GroupsAtSound(t, i);
    }
    if ColonGroups(t[i..]) {
      GroupsAtComplete(t, i);
    }
  }

  /** What a scanned group list looks like: colons and digits, ending in a digit. */
  lemma {:induction false} GroupsAtShape(t: string, i: int)
    requires 0 <= i <= |t| && GroupsAt(t, i)
    ensures forall k | i <= k < |t| :: IsTimeChar(t[k])
    ensures i < |t| ==> t[i] == ':' && IsDigit(t[|t| - 1])
    decreases |t| - i
  {
    if i < |t| {
      GroupsAtShape(t, GroupEnd(t, i));
    }
  }

  /** `\d{3}|\d{6}|\d{9}` from position `p` to the end. */
  predicate FractionAt(t: string, p: int)
    requires 0 <= p <= |t|
  {
    (|t| - p == 3 || |t| - p == 6 || |t| - p == 9) && DigitRun(t, p) == |t| - p
  }

  lemma FractionAtIff(t: string, p: int)
    requires 0 <= p <= |t|
    ensures FractionAt(t, p) <==> Fraction(t[p..])
  {
    assert forall k | p <= k < |t| :: t[k] == t[p..][k - p];
    if Fraction(t[p..]) {
      DigitRunIs(t, p, |t| - p);
    }
  }

  /** `(:\d{1,2}){2}\.(\d{3}|\d{6}|\d{9})`, scanned greedily. */
  predicate FracScan(u: string)
  {
    && GroupAt(u, 0)
    && var a := GroupEnd(u, 0);
       && a < |u| && GroupAt(u, a)
       && var b := GroupEnd(u, a);
          b < |u| && u[b] == '.' && FractionAt(u, b + 1)
  }

  lemma FracScanSound(u: string)
    requires FracScan(u)
    ensures FracTail(u)
  {
    var a := GroupEnd(u, 0);
    var b := GroupEnd(u, a);
    GroupSound(u, 0);
    GroupSound(u, a);
    FractionAtIff(u, b + 1);
    assert u[0] == ':' && TwoDigits(u[1..a]) && u[a] == ':' && TwoDigits(u[a + 1..b]) && u[b] == '.' && Fraction(u[b + 1..]);
  }

  lemma FracScanFrom(u: string, a: int, b: int)
    requires 0 < a < b < |u|
    requires u[0] == ':' && TwoDigits(u[1..a]) && u[a] == ':' && TwoDigits(u[a + 1..b]) && u[b] == '.' && Fraction(u[b + 1..])
    ensures FracScan(u)
  {
    GroupComplete(u, 0, a);
    GroupComplete(u, a, b);
    FractionAtIff(u, b + 1);
  }

  lemma FracScanComplete(u: string)
    requires FracTail(u)
    ensures FracScan(u)
  {
    var a, b :| 2 <= a <= 3 && a + 2 <= b <= a + 3 && b < |u| &&
      u[0] == ':' && TwoDigits(u[1..a]) && u[a] == ':' && TwoDigits(u[a + 1..b]) && u[b] == '.' && Fraction(u[b + 1..]);
    FracScanFrom(u, a, b);
  }

  lemma FracScanIff(u: string)
    ensures FracScan(u) <==> FracTail(u)
  {
    if FracScan(u) {
      FracScanSound(u);
    }
    if FracTail(u) {
      FracScanComplete(u);
    }
  }

  lemma FracScanShape(u: string)
    requires FracScan(u)
    ensures forall k | 0 <= k < |u| :: IsTimeChar(u[k])
    ensures u[0] == ':' && IsDigit(u[|u| - 1])
  {
  }

  /** The time itself, scanned greedily. */
  predicate CoreScan(t: string)
  {
    var n := DigitRun(t, 0);
    1 <= n <= 2 && (GroupsAt(t, n) || FracScan(t[n..]))
  }

  lemma CoreScanSound(t: string)
    requires CoreScan(t)
    ensures Core(t)
  {
    var n := DigitRun(t, 0);
    RunTwoDigits(t, 0);
    assert t[0..n] == t[..n];
    if GroupsAt(t, n) {
      GroupsAtSound(t, n);
    } else {
      FracScanSound(t[n..]);
    }
  }

  lemma CoreScanAt(t: string, j: int)
    requires 1 <= j <= 2 && j <= |t| && TwoDigits(t[..j]) && (GroupsAt(t, j) || FracScan(t[j..]))
    ensures CoreScan(t)
  {
    assert j == |t| || t[j] == t[j..][0] == ':';
    assert t[0..j] == t[..j];
    TwoDigitsRun(t, 0, j);
  }

  lemma CoreScanComplete(t: string)
    requires Core(t)
    ensures CoreScan(t)
  {
    var j :| 1 <= j <= 2 && j <= |t| && TwoDigits(t[..j]) && (ColonGroups(t[j..]) || FracTail(t[j..]));
    if ColonGroups(t[j..]) {
      GroupsAtComplete(t, j);
    } else {
      FracScanComplete(t[j..]);
    }
    CoreScanAt(t, j);
  }

  lemma CoreScanIff(t: string)
    ensures CoreScan(t) <==> Core(t)
  {
    if CoreScan(t) {
      CoreScanSound(t);
    }
    if Core(t) {
      CoreScanComplete(t);
    }
  }

  /** A scanned time is made of digits, colons and dots, and begins and ends with a digit. */
  lemma CoreScanShape(t: string)
    requires CoreScan(t)
    ensures |t| > 0 && IsDigit(t[0]) && IsDigit(t[|t| - 1])
    ensures forall k | 0 <= k < |t| :: IsTimeChar(t[k])
  {
    var n := DigitRun(t, 0);
    if GroupsAt(t, n) {
      GroupsAtShape(t, n);
    } else {
      var u := t[n..];
      FracScanShape(u);
      assert forall k | n <= k < |t| :: t[k] == u[k - n];
    }
  }

  /** The same for the expression itself. */
  lemma CoreShape(t: string)
    requires Core(t)
    ensures |t| > 0 && IsDigit(t[0]) && IsDigit(t[|t| - 1])
    ensures forall k | 0 <= k < |t| :: IsTimeChar(t[k])
  {
    CoreScanComplete(t);
    CoreScanShape(t);
  }

  /** Spaces up to `a` and from `b` on, with non-spaces at both ends of the middle. */
  lemma SpacesAround(s: string, a: int, b: int)
    requires 0 <= a < b <= |s| && AllSpace(s[..a]) && AllSpace(s[b..])
    requires !IsSpace(s[a]) && !IsSpace(s[b - 1])
    ensures LeadingSpaces(s) == a && TrailingSpaces(s) == |s| - b
  {
    assert forall k | 0 <= k < a :: s[k] == s[..a][k];
    assert forall k | b <= k < |s| :: s[k] == s[b..][k - b];
    LeadingSpacesIs(s, a);
    TrailingSpacesIs(s, |s| - b);
  }

  /** `OnlyTimeRegexp` as a scanner: skip the spaces at both ends, then scan the time. */
  predicate OnlyTimeScan(s: string)
  {
    var a, z := LeadingSpaces(s), TrailingSpaces(s);
    a + z <= |s| && CoreScan(s[a..|s| - z])
  }

  lemma OnlyTimeScanSound(s: string)
    requires OnlyTimeScan(s)
    ensures OnlyTime(s)
  {
    var a, b := LeadingSpaces(s), |s| - TrailingSpaces(s);
    CoreScanSound(s[a..b]);
    assert AllSpace(s[..a]) && AllSpace(s[b..]);
  }

  /** Spaces, a scanned time, spaces: the scanner finds exactly that time. */
  lemma OnlyTimeScanAt(s: string, a: int, b: int)
    requires 0 <= a <= b <= |s| && AllSpace(s[..a]) && CoreScan(s[a..b]) && AllSpace(s[b..])
    ensures OnlyTimeScan(s)
  {
    var t := s[a..b];
    CoreScanShape(t);
    assert s[a] == t[0] && s[b - 1] == t[b - a - 1];
    SpacesAround(s, a, b);
  }

  lemma OnlyTimeScanComplete(s: string)
    requires OnlyTime(s)
    ensures OnlyTimeScan(s)
  {
    var a, b :| 0 <= a <= b <= |s| && AllSpace(s[..a]) && Core(s[a..b]) && AllSpace(s[b..]);
    CoreScanComplete(s[a..b]);
    OnlyTimeScanAt(s, a, b);
  }

  lemma OnlyTimeScanIff(s: string)
    ensures OnlyTimeScan(s) <==> OnlyTime(s)
  {
    if OnlyTimeScan(s) {
      OnlyTimeScanSound(s);
    }
    if OnlyTime(s) {
      OnlyTimeScanComplete(s);
    }
  }

  /** Whether `OnlyTimeRegexp` matches `s`. */
  function MatchOnlyTime(s: string): (r: bool)
    ensures r <==> OnlyTime(s)
  {
    OnlyTimeScanIff(s);
    OnlyTimeScan(s)
  }

  /** The leading alternative `(\s+|^\s*|T)` decided by looking back one character. */
  predicate LeadScan(s: string, k: int)
    requires 0 <= k <= |s|
  {
    k <= LeadingSpaces(s) || (0 < k && (IsSpace(s[k - 1]) || s[k - 1] == 'T'))
  }

  lemma LeadSound(s: string, k: int)
    requires 0 <= k <= |s| && LeadScan(s, k)
    ensures Lead(s, k)
  {
    if 0 < k && IsSpace(s[k - 1]) {
      assert AllSpace(s[k - 1..k]);
    }
  }

  lemma LeadScanIff(s: string, k: int)
    requires 0 <= k <= |s|
    ensures LeadScan(s, k) <==> Lead(s, k)
  {
    if 0 < k && IsSpace(s[k - 1]) {
      assert AllSpace(s[k - 1..k]);
    }
    if i :| 0 <= i < k && AllSpace(s[i..k]) {
      assert s[k - 1] == s[i..k][k - 1 - i];
    }
  }

  /** The trailing alternative `(\s*$|[Z+-])` decided from the trailing spaces. */
  predicate TrailScan(s: string, e: int)
    requires 0 <= e <= |s|
  {
    |s| - TrailingSpaces(s) <= e || (e < |s| && (s[e] == 'Z' || s[e] == '+' || s[e] == '-'))
  }

  lemma TrailSound(s: string, e: int)
    requires 0 <= e <= |s| && TrailScan(s, e)
    ensures Trail(s, e)
  {
  }

  lemma TrailComplete(s: string, e: int)
    requires 0 <= e <= |s| && Trail(s, e)
    ensures TrailScan(s, e)
  {
  }

  lemma TrailScanIff(s: string, e: int)
    requires 0 <= e <= |s|
    ensures TrailScan(s, e) <==> Trail(s, e)
  {
  }

  /** A time followed by a trailing alternative ends where the run of time characters ends. */
  lemma CoreEnd(s: string, k: int, e: int)
    requires 0 <= k <= e <= |s| && CoreScan(s[k..e]) && Trail(s, e)
    ensures e == k + TimeCharRun(s, k)
  {
    CoreScanShape(s[k..e]);
    assert forall i | k <= i < e :: s[i] == s[k..e][i - k];
    if e < |s| && AllSpace(s[e..]) {
      assert s[e] == s[e..][0];
    }
    TimeCharRunIs(s, k, e - k);
  }

  /** Whether a match of `ApplyTimeRegexp` starts its time at position `k`. */
  predicate Hit(s: string, k: int)
    requires 0 <= k <= |s|
  {
    var e := k + TimeCharRun(s, k);
    LeadScan(s, k) && CoreScan(s[k..e]) && TrailScan(s, e)
  }

  lemma HitEndingAt(s: string, k: int, e: int)
    requires 0 <= k <= e <= |s| && e == k + TimeCharRun(s, k)
    ensures Hit(s, k) == (LeadScan(s, k) && CoreScan(s[k..e]) && TrailScan(s, e))
  {
  }

  lemma ApplyTimeAt(s: string, k: int, e: int)
    requires 0 <= k <= e <= |s| && Lead(s, k) && Core(s[k..e]) && Trail(s, e)
    ensures ApplyTime(s)
  {
  }

  lemma HitSound(s: string, k: int)
    requires 0 <= k <= |s| && Hit(s, k)
    ensures ApplyTime(s)
  {
    var e := k + TimeCharRun(s, k);
    var t := s[k..e];
    LeadSound(s, k);
    TrailSound(s, e);
    CoreScanSound(t);
    ApplyTimeAt(s, k, e);
  }

  lemma HitAt(s: string, k: int, e: int)
    requires 0 <= k <= e <= |s| && LeadScan(s, k) && CoreScan(s[k..e]) && Trail(s, e)
    ensures Hit(s, k)
  {
    CoreEnd(s, k, e);
    TrailComplete(s, e);
    HitEndingAt(s, k, e);
  }

  lemma HitComplete(s: string)
    requires ApplyTime(s)
    ensures exists k | 0 <= k <= |s| :: Hit(s, k)
  {
    var k, e :| 0 <= k <= e <= |s| && Lead(s, k) && Core(s[k..e]) && Trail(s, e);
    LeadScanIff(s, k);
    CoreScanComplete(s[k..e]);
    HitAt(s, k, e);
  }

  /** Whether `ApplyTimeRegexp` matches somewhere in `s`: every start position is tried. */
  method MatchApplyTime(s: string) returns (r: bool)
    ensures r <==> ApplyTime(s)
  {
    r := false;
    for k := 0 to |s| + 1
      invariant r <==> exists j | 0 <= j < k :: Hit(s, j)
    {
      if Hit(s, k) {
        r := true;
      }
    }
    if r {
      var j :| 0 <= j <= |s| && Hit(s, j);
      HitSound(s, j);
    }
    if ApplyTime(s) {
      HitComplete(s);
    }
  }

  /** Every input the anchored expression accepts is accepted by the unanchored one. */
  lemma OnlyTimeApplyTime(s: string)
    requires OnlyTime(s)
    ensures ApplyTime(s)
  {
    var a, b :| 0 <= a <= b <= |s| && AllSpace(s[..a]) && Core(s[a..b]) && AllSpace(s[b..]);
    assert Lead(s, a);
    ApplyTimeAt(s, a, b);
  }

  /** A string that is only a time holds nothing but digits, colons, dots and white space. */
  lemma OnlyTimeChars(s: string)
    requires OnlyTime(s)
    ensures forall k | 0 <= k < |s| :: IsTimeChar(s[k]) || IsSpace(s[k])
  {
    var a, b :| 0 <= a <= b <= |s| && AllSpace(s[..a]) && Core(s[a..b]) && AllSpace(s[b..]);
    CoreShape(s[a..b]);
    assert forall k | 0 <= k < a :: s[k] == s[..a][k];
    assert forall k | a <= k < b :: s[k] == s[a..b][k - a];
    assert forall k | b <= k < |s| :: s[k] == s[b..][k - b];
  }

  lemma ColonGroupsStep(s: string, j: int)
    requires 2 <= j <= 3 && j <= |s| && s[0] == ':' && TwoDigits(s[1..j]) && ColonGroups(s[j..])
    ensures ColonGroups(s)
  {
  }

  lemma CoreStep(s: string, j: int)
    requires 1 <= j <= 2 && j <= |s| && TwoDigits(s[..j]) && (ColonGroups(s[j..]) || FracTail(s[j..]))
    ensures Core(s)
  {
  }

  lemma OnlyTimeOfCore(s: string)
    requires Core(s)
    ensures OnlyTime(s)
  {
    assert AllSpace(s[..0]) && s[0..|s|] == s && AllSpace(s[|s|..]);
  }

  /** Hours, minutes and seconds are accepted. */
  lemma OnlyTimeClockExample()
    ensures OnlyTime("15:04:05")
  {
    var t := "15:04:05";
    DigitRunIs(t, 0, 2);
    DigitRunIs(t, 3, 2);
    DigitRunIs(t, 6, 2);
    assert GroupsAt(t, 8);
    assert GroupsAt(t, 5);
    assert GroupsAt(t, 2);
    CoreScanSound(t);
    OnlyTimeOfCore(t);
  }

  /** A fraction of milliseconds after the seconds is accepted. */
  lemma OnlyTimeFractionExample()
    ensures OnlyTime("15:04:05.000")
  {
    var t := "15:04:05.000";
    var u := ":04:05.000";
    DigitRunIs(t, 0, 2);
    DigitRunIs(u, 1, 2);
    DigitRunIs(u, 4, 2);
    DigitRunIs(u, 7, 3);
    assert FracScan(u);
    assert t[2..] == u;
    CoreScanSound(t);
    OnlyTimeOfCore(t);
  }

  /** Single-digit fields inside white space are accepted. */
  lemma OnlyTimeSpacesExample()
    ensures OnlyTime(" 3:4\t")
  {
    var s := " 3:4\t";
    LeadingSpacesIs(s, 1);
    TrailingSpacesIs(s, 1);
    var t := s[1..4];
    assert t == "3:4";
    DigitRunIs(t, 0, 1);
    DigitRunIs(t, 2, 1);
    assert GroupsAt(t, 3);
    assert GroupsAt(t, 1);
    OnlyTimeScanSound(s);
  }

  /** Without white space at either end, a string is only a time when it scans as one. */
  lemma BareOnlyTime(s: string)
    requires LeadingSpaces(s) == 0 && TrailingSpaces(s) == 0
    ensures OnlyTime(s) <==> CoreScan(s)
  {
    assert s[0..|s|] == s;
    OnlyTimeScanIff(s);
  }

  /** Three hour digits are refused. */
  lemma OnlyTimeHourCounterExample()
    ensures !OnlyTime("123")
  {
    var s := "123";
    DigitRunIs(s, 0, 3);
    BareOnlyTime(s);
  }

  lemma FractionAfterMinutes()
    ensures !CoreScan("15:04.000")
  {
    var s := "15:04.000";
    var u := ":04.000";
    DigitRunIs(s, 0, 2);
    DigitRunIs(s, 3, 2);
    assert !GroupsAt(s, 5);
    assert s[2..] == u;
    DigitRunIs(u, 1, 2);
  }

  /** A fraction needs seconds before it. */
  lemma OnlyTimeFractionCounterExample()
    ensures !OnlyTime("15:04.000")
  {
    var s := "15:04.000";
    FractionAfterMinutes();
    TrailingSpacesIs(s, 0);
    BareOnlyTime(s);
  }

  lemma FourDigitGroups()
    ensures !GroupsAt("15:04:05.1234", 2)
  {
    var s := "15:04:05.1234";
    DigitRunIs(s, 3, 2);
    DigitRunIs(s, 6, 2);
    assert !GroupsAt(s, 8);
    assert !GroupsAt(s, 5);
  }

  lemma FourDigitFraction()
    ensures !FracScan(":04:05.1234")
  {
    var u := ":04:05.1234";
    DigitRunIs(u, 1, 2);
    DigitRunIs(u, 4, 2);
  }

  /** A fraction has three, six or nine digits. */
  lemma OnlyTimeDigitsCounterExample()
    ensures !OnlyTime("15:04:05.1234")
  {
    var s := "15:04:05.1234";
    assert !CoreScan(s) by {
      DigitRunIs(s, 0, 2);
      FourDigitGroups();
      FourDigitFraction();
      assert s[2..] == ":04:05.1234";
    }
    TrailingSpacesIs(s, 0);
    BareOnlyTime(s);
  }

  /** A date is not a time. */
  lemma OnlyTimeDateCounterExample()
    ensures !OnlyTime("2023-08-15")
  {
    var s := "2023-08-15";
    assert !IsTimeChar(s[4]) && !IsSpace(s[4]);
    if OnlyTime(s) {
      OnlyTimeChars(s);
    }
  }

  /** The time after the date of a date-time is found. */
  lemma ApplyTimeSpaceExample()
    ensures ApplyTime("2017-01-01 15:04")
  {
    var s := "2017-01-01 15:04";
    TimeCharRunIs(s, 11, 5);
    TrailingSpacesIs(s, 0);
    var t := s[11..16];
    assert t == "15:04";
    DigitRunIs(t, 0, 2);
    DigitRunIs(t, 3, 2);
    assert GroupsAt(t, 5);
    assert GroupsAt(t, 2);
    assert Hit(s, 11);
    HitSound(s, 11);
  }

  /** The time after the `T` of an RFC 3339 date-time is found before its zone. */
  lemma ApplyTimeZoneExample()
    ensures ApplyTime("2021-07-20T00:59:10Z")
  {
    var s := "2021-07-20T00:59:10Z";
    TimeCharRunIs(s, 11, 8);
    var t := s[11..19];
    assert t == "00:59:10";
    DigitRunIs(t, 0, 2);
    DigitRunIs(t, 3, 2);
    DigitRunIs(t, 6, 2);
    assert GroupsAt(t, 8);
    assert GroupsAt(t, 5);
    assert GroupsAt(t, 2);
    assert Hit(s, 11);
    HitSound(s, 11);
  }

  /** A bare date has no time in it. */
  lemma ApplyTimeDateCounterExample()
    ensures !ApplyTime("2023-08-15")
  {
    var s := "2023-08-15";
    LeadingSpacesIs(s, 0);
    TimeCharRunIs(s, 0, 4);
    assert s[0..4] == "2023";
    DigitRunIs("2023", 0, 4);
    assert !Hit(s, 0);
    assert forall k | 1 <= k <= |s| :: !LeadScan(s, k);
    if ApplyTime(s) {
      HitComplete(s);
    }
  }
}

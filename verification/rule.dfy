/** The `Rule` builder of rule.go.  The source mutates the rule it is called on
    and returns that same rule; here every builder takes a rule and returns the
    updated rule, so "the same rule" reads as "the given rule with these fields
    changed".  Locations are zones; `None` is the nil location. */
module RuleBuilder {
  import opened Clock
  import Const

  /** Layout strings of the two named string types the appenders accept. */
  type TimeFormatRFC = string
  type TimeRFC = string

  datatype Rule = Rule(weekStartDay: Weekday, timeLocation: Option<Zone>, timeFormats: seq<string>)

  /** A rule seeded with the package defaults: the default week start, the
      layout table `timeFormats`, and no location. */
  function NewRule(timeFormats: seq<string>): (r: Rule)
    ensures r.weekStartDay == Sunday
    ensures r.timeLocation.None?
    ensures r.timeFormats == timeFormats
  {
    Rule(Const.WeekStartDay, None, timeFormats)
  }

  function WithWeekStartDay(c: Rule, weekStartDay: Weekday): (r: Rule)
    ensures r.weekStartDay == weekStartDay
    ensures r.timeLocation == c.timeLocation && r.timeFormats == c.timeFormats
  {
    c.(weekStartDay := weekStartDay)
  }

  function WithTimeFormats(c: Rule, timeFormats: seq<string>): (r: Rule)
    ensures r.timeFormats == timeFormats
    ensures r.weekStartDay == c.weekStartDay && r.timeLocation == c.timeLocation
  {
    c.(timeFormats := timeFormats)
  }

  function WithLocation(c: Rule, location: Option<Zone>): (r: Rule)
    ensures r.timeLocation == location
    ensures r.weekStartDay == c.weekStartDay && r.timeFormats == c.timeFormats
  {
    c.(timeLocation := location)
  }

  /** Looks the zone up by name and stores the outcome, discarding the error:
      an unknown name leaves no location at all, whatever was set before. */
  function WithLocationRFC(c: Rule, location: string, lookup: string -> Option<Zone>): (r: Rule)
    ensures lookup(location).None? ==> r.timeLocation.None?
    ensures lookup(location).Some? ==> r.timeLocation == lookup(location)
    ensures r.weekStartDay == c.weekStartDay && r.timeFormats == c.timeFormats
  {
    c.(timeLocation := lookup(location))
  }

  function ApplyUTCLoc(c: Rule): (r: Rule)
    ensures r.timeLocation == Some(UTC) && r.timeLocation.value.offsetSeconds == 0
    ensures r.weekStartDay == c.weekStartDay && r.timeFormats == c.timeFormats
  {
    c.(timeLocation := Some(UTC))
  }

  /** Sets the process's local zone, whose offset is a property of the host. */
  function ApplyLocalLoc(c: Rule, localOffset: int): (r: Rule)
    ensures r.timeLocation == Some(Local(localOffset))
    ensures r.weekStartDay == c.weekStartDay && r.timeFormats == c.timeFormats
  {
    c.(timeLocation := Some(Local(localOffset)))
  }

  /** Appends the layouts in order; no layouts leave the rule as it was. */
  function AppendTimeFormat(c: Rule, format: seq<string>): (r: Rule)
    ensures |format| == 0 ==> r == c
    ensures |r.timeFormats| == |c.timeFormats| + |format|
    ensures r.timeFormats[..|c.timeFormats|] == c.timeFormats
    ensures r.timeFormats[|c.timeFormats|..] == format
    ensures r.weekStartDay == c.weekStartDay && r.timeLocation == c.timeLocation
  {
    if |format| == 0 then c else c.(timeFormats := c.timeFormats + format)
  }

  /** Appends the layouts one at a time; the result is the one-shot append. */
  method AppendTimeFormatRFC(c: Rule, format: seq<TimeFormatRFC>) returns (r: Rule)
    ensures r == AppendTimeFormat(c, format)
    ensures |r.timeFormats| == |c.timeFormats| + |format|
  {
    if |format| == 0 {
      return c;
    }
    r := c;
    for i := 0 to |format|
      invariant r == c.(timeFormats := c.timeFormats + format[..i])
    {
      r := r.(timeFormats := r.timeFormats + [format[i]]);
      assert c.timeFormats + format[..i + 1] == c.timeFormats + format[..i] + [format[i]];
    }
    assert format[..|format|] == format;
  }

  /** The same loop over the short layout type. */
  method AppendTimeFormatRFCshort(c: Rule, format: seq<TimeRFC>) returns (r: Rule)
    ensures r == AppendTimeFormat(c, format)
    ensures |r.timeFormats| == |c.timeFormats| + |format|
  {
    if |format| == 0 {
      return c;
    }
    r := c;
    for i := 0 to |format|
      invariant r == c.(timeFormats := c.timeFormats + format[..i])
    {
      r := r.(timeFormats := r.timeFormats + [format[i]]);
      assert c.timeFormats + format[..i + 1] == c.timeFormats + format[..i] + [format[i]];
    }
    assert format[..|format|] == format;
  }

  /** Two appends are one append of both lists. */
  lemma AppendTimeFormatTwice(c: Rule, a: seq<string>, b: seq<string>)
    ensures AppendTimeFormat(AppendTimeFormat(c, a), b) == AppendTimeFormat(c, a + b)
  {
    if |a| > 0 && |b| > 0 {
      assert c.timeFormats + a + b == c.timeFormats + (a + b);
    } else if |a| == 0 {
      assert a + b == b;
    } else {
      assert a + b == a;
    }
  }

  /** Setters of different fields commute, and of the same field the last wins. */
  lemma SettersIndependent(c: Rule, d: Weekday, fs: seq<string>, loc: Option<Zone>, e: Weekday)
    ensures WithWeekStartDay(WithLocation(c, loc), d) == WithLocation(WithWeekStartDay(c, d), loc)
    ensures WithWeekStartDay(WithTimeFormats(c, fs), d) == WithTimeFormats(WithWeekStartDay(c, d), fs)
    ensures WithLocation(WithTimeFormats(c, fs), loc) == WithTimeFormats(WithLocation(c, loc), fs)
    ensures WithWeekStartDay(WithWeekStartDay(c, d), e) == WithWeekStartDay(c, e)
    ensures WithLocation(WithLocation(c, loc), None) == WithLocation(c, None)
  {
  }

  /** A failed lookup clears a location set earlier, for instance by `ApplyUTCLoc`. */
  lemma WithLocationRFCClears(timeFormats: seq<string>, location: string, lookup: string -> Option<Zone>)
    requires lookup(location).None?
    ensures WithLocationRFC(ApplyUTCLoc(NewRule(timeFormats)), location, lookup).timeLocation.None?
    ensures WithLocationRFC(ApplyUTCLoc(NewRule(timeFormats)), location, lookup) == NewRule(timeFormats)
  {
  }
}

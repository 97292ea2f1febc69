/** `relative_datetime`: a human-readable "how long ago" text for the
    difference between two datetimes. The difference is given as the
    `days` and `seconds` fields of a Python `timedelta` (seconds always in
    [0, 86400)); the absolute date text `strftime('%d %b %y')` is an input. */
module TimeUtils {
  import opened PyStr

  function RelativeDatetime(days: int, seconds: int, absolute: string): (r: string)
    requires 0 <= seconds < 86400
    ensures days > 7 || days < 0 ==> r == absolute
    ensures 0 <= days <= 7 ==> (r == "just now" <==> days == 0 && seconds < 5)
    ensures 1 <= days <= 7 ==> r == Describe(days, Days)
  {
    if days > 7 || days < 0 then absolute
    else if days == 1 then "1 day ago"
    else if days > 1 then IntToString(days) + " days ago"
    else if seconds < 5 then "just now"
    else if seconds < 60 then IntToString(seconds) + " seconds ago"
    else if seconds < 120 then "1 minute ago"
    else if seconds < 3600 then IntToString(seconds / 60) + " minutes ago"
    else if seconds < 7200 then "1 hour ago"
    else IntToString(seconds / 3600) + " hours ago"
  }

  /** The unit of time a message counts in. */
  datatype Unit = Seconds | Minutes | Hours | Days

  function UnitWord(u: Unit): string {
    match u
    case Seconds => "second"
    case Minutes => "minute"
    case Hours => "hour"
    case Days => "day"
  }

  /** "<n> <unit> ago", with the unit in the plural unless `n` is one. */
  function Describe(n: nat, u: Unit): string {
    NatToString(n) + UnitTail(n, u)
  }

  function UnitTail(n: nat, u: Unit): string {
    [' '] + UnitWord(u) + (if n == 1 then "" else "s") + " ago"
  }

  /** Every same-day difference of at least five seconds is reported in the
      largest unit it reaches, with the whole count of that unit. */
  lemma SameDayUsesLargestUnit(seconds: int, absolute: string)
    requires 5 <= seconds < 86400
    ensures seconds < 60 ==> RelativeDatetime(0, seconds, absolute) == Describe(seconds, Seconds)
    ensures 60 <= seconds < 3600 ==> RelativeDatetime(0, seconds, absolute) == Describe(seconds / 60, Minutes)
    ensures 3600 <= seconds ==> RelativeDatetime(0, seconds, absolute) == Describe(seconds / 3600, Hours)
  {
    if seconds < 60 {
      assert UnitTail(seconds, Seconds) == " seconds ago";
    } else if seconds < 3600 {
      MinutesMessage(seconds, absolute);
    } else {
      HoursMessage(seconds, absolute);
    }
  }

  lemma MinutesMessage(seconds: int, absolute: string)
    requires 60 <= seconds < 3600
    ensures RelativeDatetime(0, seconds, absolute) == Describe(seconds / 60, Minutes)
  {
    if seconds < 120 {
      assert NatToString(1) == "1";
      assert UnitTail(1, Minutes) == " minute ago";
    } else {
      assert UnitTail(seconds / 60, Minutes) == " minutes ago";
    }
  }

  lemma HoursMessage(seconds: int, absolute: string)
    requires 3600 <= seconds < 86400
    ensures RelativeDatetime(0, seconds, absolute) == Describe(seconds / 3600, Hours)
  {
    if seconds < 7200 {
      assert NatToString(1) == "1";
      assert UnitTail(1, Hours) == " hour ago";
    } else {
      assert UnitTail(seconds / 3600, Hours) == " hours ago";
    }
  }

  /** From one to seven days the message counts whole days, whatever the
      seconds: "1 day ago" for exactly one, "<days> days ago" above. */
  lemma DaysMessage(days: int, seconds: int, absolute: string)
    requires 1 <= days <= 7 && 0 <= seconds < 86400
    ensures RelativeDatetime(days, seconds, absolute) == Describe(days, Days)
    ensures days == 1 ==> RelativeDatetime(days, seconds, absolute) == "1 day ago"
    ensures days > 1 ==> RelativeDatetime(days, seconds, absolute) == NatToString(days) + " days ago"
  {
    if days == 1 {
      assert NatToString(1) == "1";
      assert UnitTail(1, Days) == " day ago";
    } else {
      assert UnitTail(days, Days) == " days ago";
    }
  }

  lemma DescribeInjective(n: nat, u: Unit, m: nat, v: Unit)
    requires Describe(n, u) == Describe(m, v)
    ensures n == m && u == v
  {
    var rest, own := UnitTail(n, u), UnitTail(m, v);
    NatToStringPrefixUnique(n, m, rest, own);
    // the units' words start with distinct letters
    assert rest[1] == UnitWord(u)[0] && own[1] == UnitWord(v)[0];
  }

  /** Reading a counted message back: the number it shows is the whole
      count of its unit in the difference (integer division for minutes and
      hours), and a sub-day unit is only used on the same day. */
  lemma CountedMessage(days: int, seconds: int, absolute: string, n: nat, u: Unit)
    requires 0 <= days <= 7 && 0 <= seconds < 86400
    requires RelativeDatetime(days, seconds, absolute) == Describe(n, u)
    ensures n >= 1
    ensures u == Days <==> days >= 1
    ensures u == Days ==> n == days
    ensures u == Seconds ==> 5 <= n == seconds < 60
    ensures u == Minutes ==> n * 60 <= seconds < n * 60 + 60 && n < 60
    ensures u == Hours ==> n * 3600 <= seconds < n * 3600 + 3600 && n < 24
  {
    if days == 0 && seconds < 5 {
      assert false;
    }
    if days >= 1 {
      DaysMessage(days, seconds, absolute);
      DescribeInjective(n, u, days, Days);
    } else {
      SameDayUsesLargestUnit(seconds, absolute);
      if seconds < 60 {
        DescribeInjective(n, u, seconds, Seconds);
      } else if seconds < 3600 {
        DescribeInjective(n, u, seconds / 60, Minutes);
      } else {
        DescribeInjective(n, u, seconds / 3600, Hours);
      }
    }
  }
}

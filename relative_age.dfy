/**
 * formattedDate: the relative-age label shown under each note, computed from the
 * current time and the note's creation time, both in milliseconds.
 */
module RelativeAge {
  import opened Text

  const MsPerMinute: int := 60_000
  const MsPerHour: int := 3_600_000

  /** The label for a whole number of minutes: "1 minute ago", "2 minutes ago", ... */
  function MinutesLabel(minutes: nat): (r: string)
    ensures minutes >= 1 ==> r == NatToString(minutes) + (if minutes == 1 then " minute ago" else " minutes ago")
    ensures |r| > 4 && r[|r| - 4..] == " ago"
  {
    NatToString(minutes) + " minute" + (if minutes > 1 then "s" else "") + " ago"
  }

  /**
   * The label for an age of elapsed = now - createdAt milliseconds. Whole seconds
   * and whole minutes are taken with floor division (Dafny's `/` by a positive
   * divisor), as Math.floor does. A date in the future counts as "Just now";
   * an hour or more gives the empty string.
   */
  function FormattedDate(nowMs: int, createdMs: int): (r: string)
    ensures nowMs - createdMs < MsPerMinute <==> r == "Just now"
    ensures nowMs - createdMs >= MsPerHour <==> r == ""
    ensures MsPerMinute <= nowMs - createdMs < MsPerHour ==>
      var m := (nowMs - createdMs) / MsPerMinute;
      && 1 <= m < 60
      && r == NatToString(m) + (if m == 1 then " minute ago" else " minutes ago")
  {
    var elapsed := nowMs - createdMs;
    var seconds := elapsed / 1000;
    var minutes := seconds / 60;
    FloorOfFloor(elapsed);
    if seconds < 60 then
      "Just now"
    else if minutes < 60 then
      var shown := MinutesLabel(minutes);
      assert shown[0] != 'J' by { assert shown[0] == NatToString(minutes)[0]; }
      shown
    else
      ""
  }

  /** Whole minutes of whole seconds are the whole minutes of the milliseconds. */
  lemma FloorOfFloor(elapsed: int)
    ensures elapsed / 1000 / 60 == elapsed / MsPerMinute
    ensures elapsed / 1000 < 60 <==> elapsed < MsPerMinute
    ensures elapsed / 1000 / 60 < 60 <==> elapsed < MsPerHour
  {
    var s := elapsed / 1000;
    var m := s / 60;
    assert elapsed == 1000 * s + elapsed % 1000;
    assert s == 60 * m + s % 60;
    assert elapsed == MsPerMinute * m + (1000 * (s % 60) + elapsed % 1000);
  }

  /** The label reads back: its leading digits are the minute count, and the unit agrees in number. */
  lemma MinutesLabelReadsBack(nowMs: int, createdMs: int)
    requires MsPerMinute <= nowMs - createdMs < MsPerHour
    ensures var r := FormattedDate(nowMs, createdMs);
      var m := (nowMs - createdMs) / MsPerMinute;
      exists k :: 1 <= k <= 2 && AllDigits(r[..k]) && DecimalValue(r[..k]) == m
        && r[k..] == (if m == 1 then " minute ago" else " minutes ago")
  {
    var r := FormattedDate(nowMs, createdMs);
    var m := (nowMs - createdMs) / MsPerMinute;
    var digits := NatToString(m);
    assert |digits| <= 2 by {
      if |digits| > 2 {
        assert digits == digits[..|digits| - 1] + [digits[|digits| - 1]];
        DecimalValueAtLeast(digits);
      }
    }
    var k := |digits|;
    assert r[..k] == digits;
  }

  /** A decimal numeral of three or more digits without a leading zero is at least 100. */
  lemma {:induction false} DecimalValueAtLeast(s: string)
    requires AllDigits(s) && |s| >= 3 && s[0] != '0'
    ensures DecimalValue(s) >= 100
    decreases |s|
  {
    var prefix := s[..|s| - 1];
    if |s| == 3 {
      assert prefix[..1] == [s[0]];
      assert DecimalValue(prefix) == DecimalValue(prefix[..1]) * 10 + (s[1] as int - '0' as int);
      assert DecimalValue(prefix[..1]) == s[0] as int - '0' as int by {
        assert prefix[..1][..0] == [];
      }
    } else {
      DecimalValueAtLeast(prefix);
    }
  }

  /** Ages under a minute, including a creation time 5 s ahead of the clock, read "Just now". */
  lemma JustNowExamples()
    ensures FormattedDate(0, 0) == "Just now"
    ensures FormattedDate(59_999, 0) == "Just now"
    ensures FormattedDate(0, 5_000) == "Just now"
  {
  }

  /** 90 s after creation reads "1 minute ago", 150 s reads "2 minutes ago". */
  lemma MinutesExamples()
    ensures FormattedDate(90_000, 0) == "1 minute ago"
    ensures FormattedDate(150_000, 0) == "2 minutes ago"
  {
  }

  /** 3700 s after creation, past the hour, the label is empty. */
  lemma PastHourExample()
    ensures FormattedDate(3_700_000, 0) == ""
  {
  }
}

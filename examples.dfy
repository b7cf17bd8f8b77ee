/** The check applied to concrete banners, with the caller's expected 4 hours. */
module RemainingExamples {
  import opened Wrappers
  import opened Text
  import opened Remaining

  /** The label the page puts before the time has no digits in it. */
  lemma LabelHasNoDigits()
    ensures All("Remaining: ", c => !IsDigit(c))
  {
  }

  /** The page's label in front of a rendered time does not change the verdict. */
  lemma LabelledBanner(hours: nat, minutes: nat, expectedHours: int)
    ensures CheckRemaining("Remaining: " + Banner(hours, minutes), expectedHours)
      == if InRange(hours, minutes, expectedHours) then Ok((hours, minutes)) else Err(RangeError)
  {
    LabelHasNoDigits();
    BannerInContext("Remaining: ", hours, minutes, "", expectedHours);
    assert "Remaining: " + Banner(hours, minutes) + "" == "Remaining: " + Banner(hours, minutes);
  }

  /** The concrete banners below are renderings of their hours and minutes. */
  lemma RenderedBanners()
    ensures "Remaining: " + Banner(3, 59) == "Remaining: 3h 59m"
    ensures "Remaining: " + Banner(2, 10) == "Remaining: 2h 10m"
    ensures "Remaining: " + Banner(4, 60) == "Remaining: 4h 60m"
  {
    assert Banner(3, 59) == "3h 59m" && Banner(2, 10) == "2h 10m" && Banner(4, 60) == "4h 60m";
  }

  /** "Remaining: 3h 59m" passes the check with 3 hours and 59 minutes. */
  lemma ExampleThreeFiftyNine()
    ensures CheckRemaining("Remaining: 3h 59m", 4) == Ok((3, 59))
  {
    var banner := "Remaining: " + Banner(3, 59);
    LabelledBanner(3, 59, 4);
    assert CheckRemaining(banner, 4) == Ok((3, 59));
    RenderedBanners();
    assert banner == "Remaining: 3h 59m";
  }

  /** "Remaining: 2h 10m" has one hour too few for an expected 4. */
  lemma ExampleTooFewHours()
    ensures CheckRemaining("Remaining: 2h 10m", 4) == Err(RangeError)
  {
    var banner := "Remaining: " + Banner(2, 10);
    LabelledBanner(2, 10, 4);
    assert CheckRemaining(banner, 4) == Err(RangeError);
    RenderedBanners();
    assert banner == "Remaining: 2h 10m";
  }

  /** "Remaining: 4h 60m" has too many minutes. */
  lemma ExampleSixtyMinutes()
    ensures CheckRemaining("Remaining: 4h 60m", 4) == Err(RangeError)
  {
    var banner := "Remaining: " + Banner(4, 60);
    LabelledBanner(4, 60, 4);
    assert CheckRemaining(banner, 4) == Err(RangeError);
    RenderedBanners();
    assert banner == "Remaining: 4h 60m";
  }

  /** "3h59m" does not parse. */
  lemma ExampleNoSpace()
    ensures CheckRemaining("3h59m", 4) == Err(ParseError)
  {
    NoSpaceAfterHRejected("3", "59", 4);
    assert "3" + "h" + "59" + "m" == "3h59m";
  }
}

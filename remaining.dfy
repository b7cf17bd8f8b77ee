/**
 * The remaining-time check at the end of `verify_session_remaining`: strip the
 * banner, search it for `(\d+)\s*h\s+(\d+)\s*m`, read the two digit groups as
 * numbers and accept them only when the hours are the expected count or one
 * less and the minutes are below 60.
 *
 * The regular expression is written out as a matcher. At a fixed start every
 * part of the pattern is forced to take its longest run (a shorter one would
 * leave a character that the next part cannot take), so the backtracking
 * search of Python's `re` and this greedy matcher find the same match;
 * `MatchForced` is the proof of that.
 */
module Remaining {
  import opened Wrappers
  import opened Text
  import opened Decimal

  /**
   * Where one match of `(\d+)\s*h\s+(\d+)\s*m` lies in a text: the hour
   * digits are `s[start..hoursEnd]`, the 'h' is at `hMark`, the minute digits
   * are `s[minutesStart..minutesEnd]` and the 'm' is at `mMark`, the last
   * character of the match.
   */
  datatype Match = Match(start: nat, hoursEnd: nat, hMark: nat, minutesStart: nat, minutesEnd: nat, mMark: nat)

  /** `m` describes a match of the pattern in `s`. */
  predicate IsMatch(s: string, m: Match) {
    m.start < m.hoursEnd <= m.hMark < m.hMark + 1 < m.minutesStart < m.minutesEnd <= m.mMark < |s|
    && All(s[m.start..m.hoursEnd], IsDigit)            // (\d+)
    && All(s[m.hoursEnd..m.hMark], IsSpace)            // \s*
    && s[m.hMark] == 'h'                               // h
    && All(s[m.hMark + 1..m.minutesStart], IsSpace)    // \s+
    && All(s[m.minutesStart..m.minutesEnd], IsDigit)   // (\d+)
    && All(s[m.minutesEnd..m.mMark], IsSpace)          // \s*
    && s[m.mMark] == 'm'                               // m
  }

  /** `m` is a match and no match starts further left: the one `re.search` reports. */
  ghost predicate IsLeftmostMatch(s: string, m: Match) {
    IsMatch(s, m) && forall m': Match :: m'.start < m.start ==> !IsMatch(s, m')
  }

  /** `int(m.group(1))` and `int(m.group(2))`. */
  function GroupValues(s: string, m: Match): (hm: (nat, nat))
    requires IsMatch(s, m)
    ensures hm.0 < Pow10(m.hoursEnd - m.start) && hm.1 < Pow10(m.minutesEnd - m.minutesStart)
  {
    (DigitsToNat(s[m.start..m.hoursEnd]), DigitsToNat(s[m.minutesStart..m.minutesEnd]))
  }

  /**
   * A match is determined by where it starts: each of its parts ends exactly
   * where the longest run of that part's characters ends.
   */
  lemma MatchForced(s: string, m: Match)
    requires IsMatch(s, m)
    ensures m.hoursEnd == Run(s, m.start, IsDigit)
    ensures m.hMark == Run(s, m.hoursEnd, IsSpace)
    ensures m.minutesStart == Run(s, m.hMark + 1, IsSpace)
    ensures m.minutesEnd == Run(s, m.minutesStart, IsDigit)
    ensures m.mMark == Run(s, m.minutesEnd, IsSpace)
  {
    if m.hoursEnd < m.hMark {
      assert s[m.hoursEnd..m.hMark][0] == s[m.hoursEnd];
    }
    RunUnique(s, m.start, m.hoursEnd, IsDigit);
    RunUnique(s, m.hoursEnd, m.hMark, IsSpace);
    assert s[m.minutesStart..m.minutesEnd][0] == s[m.minutesStart];
    RunUnique(s, m.hMark + 1, m.minutesStart, IsSpace);
    if m.minutesEnd < m.mMark {
      assert s[m.minutesEnd..m.mMark][0] == s[m.minutesEnd];
    }
    RunUnique(s, m.minutesStart, m.minutesEnd, IsDigit);
    RunUnique(s, m.minutesEnd, m.mMark, IsSpace);
  }

  /** `MatchForced` for every match in `s` at once. */
  lemma AllMatchesForced(s: string)
    ensures forall m: Match :: IsMatch(s, m) ==>
      m.hoursEnd == Run(s, m.start, IsDigit) && m.hMark == Run(s, m.hoursEnd, IsSpace)
      && m.minutesStart == Run(s, m.hMark + 1, IsSpace) && m.minutesEnd == Run(s, m.minutesStart, IsDigit)
      && m.mMark == Run(s, m.minutesEnd, IsSpace)
  {
    forall m: Match | IsMatch(s, m)
      ensures m.hoursEnd == Run(s, m.start, IsDigit) && m.hMark == Run(s, m.hoursEnd, IsSpace)
      ensures m.minutesStart == Run(s, m.hMark + 1, IsSpace) && m.minutesEnd == Run(s, m.minutesStart, IsDigit)
      ensures m.mMark == Run(s, m.minutesEnd, IsSpace)
    {
      MatchForced(s, m);
    }
  }

  /**
   * The pattern tried at position `i` only: `Some` of the match that starts
   * there, or `None` when no match starts there.
   */
  function MatchAt(s: string, i: nat): (r: Option<Match>)
    requires i <= |s|
    ensures r.Some? ==> r.value.start == i
    ensures forall m: Match :: m.start == i ==> (IsMatch(s, m) <==> r == Some(m))
  {
    AllMatchesForced(s);
    var hoursEnd := Run(s, i, IsDigit);
    var hMark := Run(s, hoursEnd, IsSpace);
    if hoursEnd == i || hMark == |s| || s[hMark] != 'h' then
      None
    else
      var minutesStart := Run(s, hMark + 1, IsSpace);
      var minutesEnd := Run(s, minutesStart, IsDigit);
      var mMark := Run(s, minutesEnd, IsSpace);
      if minutesStart == hMark + 1 || minutesEnd == minutesStart || mMark == |s| || s[mMark] != 'm' then
        None
      else
        Some(Match(i, hoursEnd, hMark, minutesStart, minutesEnd, mMark))
  }

  /**
   * `re.search` from position `i` on: start positions are tried left to
   * right and the first match found is the result.
   */
  function Search(s: string, i: nat): (r: Option<Match>)
    requires i <= |s|
    ensures r.Some? ==> i <= r.value.start && IsMatch(s, r.value)
    ensures r.Some? ==> forall m: Match :: i <= m.start < r.value.start ==> !IsMatch(s, m)
    ensures r.None? ==> forall m: Match :: i <= m.start ==> !IsMatch(s, m)
    decreases |s| - i
  {
    match MatchAt(s, i)
    case Some(m) => Some(m)
    case None =>
      if i == |s| then None else Search(s, i + 1)
  }

  /** The search from the start of the text returns the leftmost match, whenever there is one. */
  lemma SearchFindsLeftmost(s: string, m: Match)
    requires IsLeftmostMatch(s, m)
    ensures Search(s, 0) == Some(m)
  {
    var r := Search(s, 0);
    var found := MatchAt(s, m.start);
    assert r.value.start == m.start;
  }

  /**
   * Lines 156-161: search the (already stripped) text and convert the two
   * digit groups; `None` when there is no match.
   */
  function ParseRemaining(text: string): (r: Option<(nat, nat)>)
    ensures r.None? <==> forall m: Match :: !IsMatch(text, m)
    ensures r.Some? ==> exists m: Match :: IsLeftmostMatch(text, m) && r.value == GroupValues(text, m)
  {
    match Search(text, 0)
    case None => None
    case Some(m) => Some(GroupValues(text, m))
  }

  /** Whatever the leftmost match is, its two group values are what the parse returns. */
  lemma ParseReadsLeftmost(text: string, m: Match)
    requires IsLeftmostMatch(text, m)
    ensures ParseRemaining(text) == Some(GroupValues(text, m))
  {
    SearchFindsLeftmost(text, m);
  }

  /** The two ways the check raises `RuntimeError`. */
  datatype Error =
    | ParseError   // no match in the banner (line 158)
    | RangeError   // a match whose values are out of range (lines 164-167)

  /** The condition of line 163. */
  predicate InRange(hours: nat, minutes: nat, expectedHours: int)
    ensures InRange(hours, minutes, expectedHours) <==> (hours == expectedHours || hours == expectedHours - 1) && minutes < 60
  {
    expectedHours - 1 <= hours <= expectedHours && 0 <= minutes < 60
  }

  /**
   * Lines 155-167 of `verify_session_remaining`: `Ok` of the parsed hours and
   * minutes when the banner passes, the error otherwise.
   */
  function CheckRemaining(banner: string, expectedHours: int): (r: Result<(nat, nat), Error>)
    ensures r == Err(ParseError) <==> forall m: Match :: !IsMatch(Strip(banner), m)
    ensures r.Ok? ==> ParseRemaining(Strip(banner)) == Some(r.value)
    ensures r.Ok? ==> expectedHours - 1 <= r.value.0 <= expectedHours && r.value.1 < 60
    ensures ParseRemaining(Strip(banner)).Some? ==>
      (r.Ok? <==> InRange(ParseRemaining(Strip(banner)).value.0, ParseRemaining(Strip(banner)).value.1, expectedHours))
    ensures r.Err? && r.error == RangeError ==> ParseRemaining(Strip(banner)).Some?
  {
    var text := Strip(banner);
    match ParseRemaining(text)
    case None => Err(ParseError)
    case Some((hours, minutes)) =>
      if InRange(hours, minutes, expectedHours) then Ok((hours, minutes)) else Err(RangeError)
  }

  /** A matched banner passes or fails on the values of its leftmost match alone. */
  lemma CheckReadsLeftmost(banner: string, expectedHours: int, m: Match)
    requires IsLeftmostMatch(Strip(banner), m)
    ensures var (hours, minutes) := GroupValues(Strip(banner), m);
      CheckRemaining(banner, expectedHours)
      == if InRange(hours, minutes, expectedHours) then Ok((hours, minutes)) else Err(RangeError)
  {
    ParseReadsLeftmost(Strip(banner), m);
  }

  /** With the caller's value of 4, exactly 3 and 4 hours pass, with fewer than 60 minutes. */
  lemma ExpectedFourAcceptsThreeOrFour(banner: string)
    ensures CheckRemaining(banner, 4).Ok? <==>
      ParseRemaining(Strip(banner)).Some?
      && ParseRemaining(Strip(banner)).value.0 in {3, 4}
      && ParseRemaining(Strip(banner)).value.1 < 60
  {
  }

  /** Leading and trailing whitespace around the banner never changes the outcome. */
  lemma CheckIgnoresPadding(pre: string, banner: string, post: string, expectedHours: int)
    requires All(pre, IsSpace) && All(post, IsSpace)
    ensures CheckRemaining(pre + banner + post, expectedHours) == CheckRemaining(banner, expectedHours)
  {
    StripIgnoresPadding(pre, banner, post);
  }

  /** Every match begins with a digit. */
  lemma MatchStartsWithDigit(s: string, m: Match)
    requires IsMatch(s, m)
    ensures IsDigit(s[m.start])
  {
    assert s[m.start..m.hoursEnd][0] == s[m.start];
  }

  /** Every match has an 'h' followed by whitespace. */
  lemma SpaceAfterH(s: string, m: Match)
    requires IsMatch(s, m)
    ensures s[m.hMark] == 'h' && IsSpace(s[m.hMark + 1])
  {
    assert s[m.hMark + 1..m.minutesStart][0] == s[m.hMark + 1];
  }

  /**
   * A banner with no whitespace between 'h' and the minute digits, such as
   * "3h59m", is a parse error: `\s+` needs at least one whitespace character.
   */
  lemma NoSpaceAfterHRejected(hourDigits: string, minuteDigits: string, expectedHours: int)
    requires All(hourDigits, IsDigit) && All(minuteDigits, IsDigit)
    ensures CheckRemaining(hourDigits + "h" + minuteDigits + "m", expectedHours) == Err(ParseError)
  {
    var s := hourDigits + "h" + minuteDigits + "m";
    var h := |hourDigits|;
    assert s[h] == 'h';
    assert s[|s| - 1] == 'm';
    assert s[..0] == [] && s[|s|..] == [];
    if h > 0 {
      assert s[0] == hourDigits[0];
    }
    StripUnique(s, 0, |s|);
    assert s[0..|s|] == s;
    forall m: Match | IsMatch(s, m) ensures false {
      SpaceAfterH(s, m);
    }
  }

  /** The banner the page is expected to show for `hours` and `minutes`, such as "3h 59m". */
  function Banner(hours: nat, minutes: nat): string {
    NatToDigits(hours) + "h " + NatToDigits(minutes) + "m"
  }

  /** Where the pattern matches inside `Banner(hours, minutes)`. */
  function BannerMatch(hours: nat, minutes: nat): Match {
    var h, m := |NatToDigits(hours)|, |NatToDigits(minutes)|;
    Match(0, h, h, h + 2, h + 2 + m, h + 2 + m)
  }

  /** The pattern matches a rendered banner, and its groups read back the two numbers. */
  lemma BannerMatches(hours: nat, minutes: nat)
    ensures IsMatch(Banner(hours, minutes), BannerMatch(hours, minutes))
    ensures GroupValues(Banner(hours, minutes), BannerMatch(hours, minutes)) == (hours, minutes)
  {
    var hd, md := NatToDigits(hours), NatToDigits(minutes);
    var b := Banner(hours, minutes);
    var h, m := |hd|, |md|;
    assert b[0..h] == hd;
    assert b[h..h] == [];
    assert b[h] == 'h';
    assert b[h + 1..h + 2] == [' '];
    assert b[h + 2..h + 2 + m] == md;
    assert b[h + 2 + m..h + 2 + m] == [];
    assert b[h + 2 + m] == 'm';
    DigitsRoundTrip(hours);
    DigitsRoundTrip(minutes);
  }

  /** `m` moved `k` positions to the right. */
  function Shift(m: Match, k: nat): Match {
    Match(m.start + k, m.hoursEnd + k, m.hMark + k, m.minutesStart + k, m.minutesEnd + k, m.mMark + k)
  }

  lemma SliceOfMiddle(x: string, b: string, y: string, i: nat, j: nat)
    requires i <= j <= |b|
    ensures (x + b + y)[|x| + i..|x| + j] == b[i..j]
  {
  }

  /** A match inside `b` is still a match, with the same groups, once text is put around `b`. */
  lemma MatchInContext(x: string, b: string, y: string, m: Match)
    requires IsMatch(b, m)
    ensures IsMatch(x + b + y, Shift(m, |x|))
    ensures GroupValues(x + b + y, Shift(m, |x|)) == GroupValues(b, m)
  {
    var s := x + b + y;
    var n := |x|;
    SliceOfMiddle(x, b, y, m.start, m.hoursEnd);
    SliceOfMiddle(x, b, y, m.hoursEnd, m.hMark);
    SliceOfMiddle(x, b, y, m.hMark + 1, m.minutesStart);
    SliceOfMiddle(x, b, y, m.minutesStart, m.minutesEnd);
    SliceOfMiddle(x, b, y, m.minutesEnd, m.mMark);
    assert s[n + m.hMark] == b[m.hMark];
    assert s[n + m.mMark] == b[m.mMark];
  }

  /**
   * Text before and after the time is ignored: a banner that shows
   * `Banner(hours, minutes)` after text with no digits in it is judged on
   * `hours` and `minutes` alone.
   */
  lemma BannerInContext(lead: string, hours: nat, minutes: nat, rest: string, expectedHours: int)
    requires All(lead, c => !IsDigit(c))
    ensures CheckRemaining(lead + Banner(hours, minutes) + rest, expectedHours)
      == if InRange(hours, minutes, expectedHours) then Ok((hours, minutes)) else Err(RangeError)
  {
    var b := Banner(hours, minutes);
    var s := lead + b + rest;
    StripRemovesOnlySpace(s);
    var a, e := StripStart(s), StripEnd(s);
    assert b[0] == NatToDigits(hours)[0];
    assert s[|lead|] == b[0];
    assert s[|lead| + |b| - 1] == 'm';
    assert a <= |lead|;
    assert e >= |lead| + |b|;
    var x, y := lead[a..], rest[..e - |lead| - |b|];
    var t := Strip(s);
    assert t == x + b + y;
    BannerMatches(hours, minutes);
    var m := Shift(BannerMatch(hours, minutes), |x|);
    MatchInContext(x, b, y, BannerMatch(hours, minutes));
    forall m': Match | m'.start < m.start && IsMatch(t, m') ensures false {
      MatchStartsWithDigit(t, m');
    }
    CheckReadsLeftmost(s, expectedHours, m);
  }
}

# Remaining-time check of the parking-session script

`scripts/start_session.py` drives a browser through a parking-payment web page.
Its one piece of self-contained logic is the last step of
`verify_session_remaining`: the text of the "Remaining" banner is stripped of
surrounding whitespace, searched for the regular expression
`(\d+)\s*h\s+(\d+)\s*m`, the two digit groups are converted with `int`, and the
session is accepted only when the hours are `expected_hours` or one less and the
minutes are below 60. A banner with no match and a banner whose numbers are out
of range each raise a `RuntimeError`.

This project models that step in Dafny:

- `Text` (text.dfy): the ASCII digit and whitespace classes, greedy runs of a
  class (`Run`, `RunBack`) and `Strip`, which is `str.strip()`.
- `Decimal` (decimal.dfy): `DigitsToNat` is `int(...)` on a digit string;
  `NatToDigits` is its inverse `str(n)`.
- `Remaining` (remaining.dfy): `IsMatch` describes a match of the pattern
  declaratively. `MatchAt` is the pattern tried at one position, and `Search`
  is `re.search`, which tries positions from left to right. `ParseRemaining`
  covers lines 156-161 and `CheckRemaining` covers lines 155-167. The error
  kinds `ParseError` and `RangeError` are the two raises.
- `RemainingExamples` (examples.dfy): the check on concrete banners with the
  caller's `expected_hours = 4`.

Python's regular-expression engine backtracks, and the model's matcher does not.
They still agree: at a fixed start every part of this pattern must take its
longest run. A shorter run would leave a character the next part cannot take.
`MatchForced` proves this, and `MatchAt` is proved to return a match at `i`
exactly when `IsMatch` holds for a match starting at `i`.

## Model

| member | source | states |
|---|---|---|
| `Text.IsDigit` | scripts/start_session.py:156 | `\d` on ASCII: the characters `0`-`9`; none of them is the literal `h` or `m` of the pattern |
| `Text.IsSpace` | scripts/start_session.py:155-156 | `\s` and the set `strip()` removes, on ASCII: tab, line feed, vertical tab, form feed, carriage return, U+001C-U+001F and space; no whitespace character is a digit, `h` or `m` |
| `Text.Run` | scripts/start_session.py:156 | a greedy `\d+`/`\s*` run from `i` stays in the text, consists only of the class, and stops at the end or at a character outside the class |
| `Text.RunUnique` | scripts/start_session.py:156 | a run of the class that stops at the first character outside it is the run `Run` finds, so greedy runs are unique |
| `Text.RunBack` | scripts/start_session.py:155 | walking back from the end over whitespace stops at the lower bound or just after a non-whitespace character, and passes only whitespace |
| `Text.Strip` | scripts/start_session.py:155 | the stripped banner is empty or begins and ends with a non-whitespace character; it is empty only when the whole banner is whitespace |
| `Text.StripRemovesOnlySpace` | scripts/start_session.py:155 | strip keeps one contiguous slice of the banner, and everything it removes before and after it is whitespace |
| `Text.StripUnique` | scripts/start_session.py:155 | any split into leading whitespace, a kept part with non-whitespace ends, and trailing whitespace is the split strip makes |
| `Text.StripIgnoresPadding` | scripts/start_session.py:155 | adding whitespace before and after a banner does not change the stripped text |
| `Text.StripIdempotent` | scripts/start_session.py:155 | stripping an already stripped text changes nothing |
| `Decimal.DigitsToNat` | scripts/start_session.py:160-161 | `int` of a digit string of length k is below 10^k |
| `Decimal.NatToDigits` | scripts/start_session.py:160-161 | the decimal rendering that `int` reads back is a non-empty digit string with no leading zero except for 0 itself |
| `Decimal.DigitsRoundTrip` | scripts/start_session.py:160-161 | `int(str(n)) == n` for every natural number n |
| `Decimal.LeadingZeroIgnored` | scripts/start_session.py:160-161 | a leading zero does not change the value `int` gives |
| `Remaining.IsMatch` | scripts/start_session.py:156 | the pattern `(\d+)\s*h\s+(\d+)\s*m` written out: non-empty digits, optional whitespace, `h`, at least one whitespace character, non-empty digits, optional whitespace, `m`, at the positions the match records |
| `Remaining.GroupValues` | scripts/start_session.py:160-161 | `int(m.group(1))` and `int(m.group(2))`: the decimal values of the two digit groups, each below 10 to the power of its group's length |
| `Remaining.MatchForced` | scripts/start_session.py:156 | in any match, each part ends exactly where the greedy run of its characters ends, so a match is determined by where it starts |
| `Remaining.AllMatchesForced` | scripts/start_session.py:156 | the same fact for every match in a text at once |
| `Remaining.MatchAt` | scripts/start_session.py:156 | trying the pattern at position i gives a match that starts at i, and gives `Some(m)` if and only if `m` is a match starting at i, so `None` exactly when no match starts there |
| `Remaining.Search` | scripts/start_session.py:156 | the search from i returns a match with no match starting between i and it, and returns `None` only when no match starts at or after i |
| `Remaining.SearchFindsLeftmost` | scripts/start_session.py:156 | whenever a leftmost match exists, the search from position 0 returns exactly that match |
| `Remaining.ParseRemaining` | scripts/start_session.py:156-161 | no result exactly when no substring matches the pattern; otherwise the decimal values of the two groups of a leftmost match |
| `Remaining.ParseReadsLeftmost` | scripts/start_session.py:156-161 | the parse returns the group values of the leftmost match, and text before and after the match is ignored |
| `Remaining.InRange` | scripts/start_session.py:163 | the condition of line 163: the hours are the expected count or one less and the minutes are below 60 (the `0 <= minutes` half always holds) |
| `Remaining.CheckRemaining` | scripts/start_session.py:155-167 | a parse error exactly when the stripped banner has no match; on a match, success exactly when the range condition holds and a range error otherwise; on success, the pair is the parsed one, with expected-1 <= hours <= expected and minutes < 60 |
| `Remaining.CheckReadsLeftmost` | scripts/start_session.py:156-167 | the outcome for a banner with a match depends only on the values of its leftmost match and the range condition |
| `Remaining.ExpectedFourAcceptsThreeOrFour` | scripts/start_session.py:163-167 | with the caller's expected 4 hours, a banner passes exactly when it parses to 3 or 4 hours and fewer than 60 minutes |
| `Remaining.CheckIgnoresPadding` | scripts/start_session.py:155 | whitespace around the banner never changes the outcome of the check |
| `Remaining.MatchStartsWithDigit` | scripts/start_session.py:156 | every match begins with a digit |
| `Remaining.SpaceAfterH` | scripts/start_session.py:156 | every match has whitespace right after its `h` |
| `Remaining.NoSpaceAfterHRejected` | scripts/start_session.py:156-158 | a banner of the form digits `h` digits `m`, such as `3h59m`, is a parse error |
| `Remaining.BannerMatches` | scripts/start_session.py:156-161 | the pattern matches the rendering `<h>h <m>m`, and its groups read back h and m |
| `Remaining.MatchInContext` | scripts/start_session.py:156 | a match stays a match, with the same group values, when text is added before and after it |
| `Remaining.BannerInContext` | scripts/start_session.py:155-167 | a banner made of a label with no digits, `<h>h <m>m` and any trailing text is accepted with exactly (h, m) when in range, and is otherwise a range error |
| `RemainingExamples.LabelledBanner` | scripts/start_session.py:155-167 | the same for the label `Remaining: ` |
| `RemainingExamples.ExampleThreeFiftyNine` | scripts/start_session.py:155-168 | `Remaining: 3h 59m` passes with (3, 59) when 4 hours are expected |
| `RemainingExamples.ExampleTooFewHours` | scripts/start_session.py:163-167 | `Remaining: 2h 10m` is a range error when 4 hours are expected |
| `RemainingExamples.ExampleSixtyMinutes` | scripts/start_session.py:163-167 | `Remaining: 4h 60m` is a range error: 60 minutes is out of range |
| `RemainingExamples.ExampleNoSpace` | scripts/start_session.py:156-158 | `3h59m` is a parse error |

The `0 <= minutes` half of the condition on line 163 always holds. The group
has only digits, and the model's minutes are a `nat`.

## Left out

- The browser automation is not modelled: `create_driver`, `click_get_quote`, `add_vehicle`, `add_receipt_email`, `open_payment_and_start_session` and the element lookups. It is foreign-library I/O against an external web page. The banner text, `remaining_el.text`, becomes the `banner` parameter of `CheckRemaining`.
- The environment variables read at import time are not modelled. That is process I/O.
- `main`'s fixed sleeps and the `driver.quit()` teardown are not modelled. They are timing and resource handling.
- The success `print` and the wording of the two error messages are not modelled. The model keeps the outcome (`Ok`, `ParseError`, `RangeError`), not the text.
- Characters outside ASCII are not modelled. Python's `\d` and `int` also accept other Unicode decimal digits. Python's `\s` and `str.strip()` also accept other Unicode whitespace, such as U+0085 and U+00A0. The model's digits are `0`-`9`. Its whitespace is the ASCII part of `str.isspace`: tab, line feed, vertical tab, form feed, carriage return, U+001C-U+001F and space.
- DigitsToNat: does not model the limit on the length of a decimal string that `int()` accepts. Python 3.11 and later, and the security releases 3.7.14, 3.8.14, 3.9.14 and 3.10.7, refuse more than 4300 digits by default and raise `ValueError`, which is neither of the two `RuntimeError`s. The limit depends on the interpreter version and its configuration, so the model converts digit strings of any length. For example, a banner of 4300 zeros followed by `3h 5m` raises `ValueError` at line 160, while `CheckRemaining` returns `Ok((3, 5))`.

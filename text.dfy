/**
 * Character classes and whitespace stripping, as Python applies them to the
 * remaining-time banner: `\d` and `\s` in the regular expression and
 * `str.strip()` with no argument.
 *
 * Only ASCII is modelled: a digit is '0'..'9', and whitespace is the ASCII part
 * of Python's `str.isspace` (tab, line feed, vertical tab, form feed, carriage
 * return, the four separators 0x1C..0x1F, and space). Python uses the same
 * whitespace class for `\s` and for `strip()`.
 */
module Text {

  /** `\d`, restricted to ASCII. */
  predicate IsDigit(c: char)
    ensures IsDigit(c) ==> c != 'h' && c != 'm'
  {
    '0' <= c <= '9'
  }

  /** `\s` and the characters `str.strip()` removes, restricted to ASCII. */
  predicate IsSpace(c: char)
    ensures IsSpace(c) ==> !IsDigit(c) && c != 'h' && c != 'm'
  {
    9 <= c as int <= 13 || 28 <= c as int <= 32
  }

  /** Every character of `t` is in the class `p`. */
  predicate All(t: string, p: char -> bool) {
    forall k :: 0 <= k < |t| ==> p(t[k])
  }

  lemma AllSlice(t: string, p: char -> bool, i: nat, j: nat)
    requires All(t, p) && i <= j <= |t|
    ensures All(t[i..j], p)
  {
    forall k | 0 <= k < j - i ensures p(t[i..j][k]) {
      assert t[i..j][k] == t[i + k];
    }
  }

  lemma AllConcat(t: string, u: string, p: char -> bool)
    requires All(t, p) && All(u, p)
    ensures All(t + u, p)
  {
    forall k | 0 <= k < |t + u| ensures p((t + u)[k]) {
      if k < |t| { assert (t + u)[k] == t[k]; } else { assert (t + u)[k] == u[k - |t|]; }
    }
  }

  /**
   * End of the longest run of characters in class `p` that starts at `i`:
   * how far a greedy `\d+`, `\s*` or `\s+` reaches from `i`.
   */
  function Run(s: string, i: nat, p: char -> bool): (j: nat)
    requires i <= |s|
    ensures i <= j <= |s|
    ensures All(s[i..j], p)
    ensures j == |s| || !p(s[j])
    decreases |s| - i
  {
    if i < |s| && p(s[i]) then
      var j := Run(s, i + 1, p);
      assert forall k :: 0 < k < j - i ==> s[i..j][k] == s[i + 1..j][k - 1];
      j
    else
      i
  }

  /** A run that stops exactly where the class ends is the one `Run` finds. */
  lemma RunUnique(s: string, i: nat, j: nat, p: char -> bool)
    requires i <= j <= |s|
    requires All(s[i..j], p)
    requires j == |s| || !p(s[j])
    ensures Run(s, i, p) == j
  {
  }

  /**
   * Start of the longest run of characters in class `p` that ends at `j`,
   * not going below `lo`: how far `strip()` walks back from the end.
   */
  function RunBack(s: string, lo: nat, j: nat, p: char -> bool): (i: nat)
    requires lo <= j <= |s|
    ensures lo <= i <= j
    ensures All(s[i..j], p)
    ensures i == lo || !p(s[i - 1])
    decreases j
  {
    if lo < j && p(s[j - 1]) then
      var i := RunBack(s, lo, j - 1, p);
      assert forall k :: 0 <= k < j - 1 - i ==> s[i..j][k] == s[i..j - 1][k];
      i
    else
      j
  }

  /** Index of the first character `strip()` keeps. */
  function StripStart(s: string): nat {
    Run(s, 0, IsSpace)
  }

  /** Index one past the last character `strip()` keeps. */
  function StripEnd(s: string): nat {
    RunBack(s, StripStart(s), |s|, IsSpace)
  }

  /**
   * `s[a..b]` is what is left once leading and trailing whitespace are gone:
   * everything outside it is whitespace and, unless it is empty, it begins
   * and ends with a character that is not.
   */
  predicate StrippedAt(s: string, a: nat, b: nat) {
    a <= b <= |s|
    && All(s[..a], IsSpace)
    && All(s[b..], IsSpace)
    && (a < b ==> !IsSpace(s[a]) && !IsSpace(s[b - 1]))
  }

  /** Python's `str.strip()` with no argument. */
  function Strip(s: string): (r: string)
    ensures |r| <= |s|
    ensures r == [] || (!IsSpace(r[0]) && !IsSpace(r[|r| - 1]))
    ensures r == [] ==> All(s, IsSpace)
  {
    var a := StripStart(s);
    var b := StripEnd(s);
    assert a == |s| ==> s[..a] == s;
    s[a..b]
  }

  /** `Strip` removes whitespace, and only whitespace, from both ends. */
  lemma StripRemovesOnlySpace(s: string)
    ensures StrippedAt(s, StripStart(s), StripEnd(s))
    ensures Strip(s) == s[StripStart(s)..StripEnd(s)]
  {
    var a, b := StripStart(s), StripEnd(s);
    assert s[..a] == s[0..a];
    if a < b {
      assert s[a..b][0] == s[a];
    } else {
      assert a == b;
      if b < |s| {
        assert s[a..|s|][0] == s[b];
      }
    }
    if b < |s| {
      assert s[b..] == s[b..|s|];
    }
  }

  /**
   * Any split of `s` into whitespace, a kept part and whitespace that meets
   * `StrippedAt` is the one `Strip` makes: what `strip()` returns is
   * determined by that description alone.
   */
  lemma StripUnique(s: string, a: nat, b: nat)
    requires StrippedAt(s, a, b)
    ensures Strip(s) == s[a..b]
  {
    StripRemovesOnlySpace(s);
  }

  /** A strip split of `s` stays one when whitespace is added around `s`. */
  lemma StrippedAtPadded(pre: string, s: string, post: string, a: nat, b: nat)
    requires All(pre, IsSpace) && All(post, IsSpace)
    requires StrippedAt(s, a, b)
    ensures StrippedAt(pre + s + post, |pre| + a, |pre| + b)
  {
    var t := pre + s + post;
    var left, right := t[..|pre| + a], t[|pre| + b..];
    forall k | 0 <= k < |left| ensures IsSpace(left[k]) {
      if k < |pre| { assert left[k] == pre[k]; } else { assert left[k] == s[..a][k - |pre|]; }
    }
    forall k | 0 <= k < |right| ensures IsSpace(right[k]) {
      var n := |pre| + b + k;
      if n < |pre| + |s| { assert right[k] == s[b..][k]; } else { assert right[k] == post[n - |pre| - |s|]; }
    }
  }

  /** Whitespace added around a text does not change what `strip()` returns. */
  lemma StripIgnoresPadding(pre: string, s: string, post: string)
    requires All(pre, IsSpace) && All(post, IsSpace)
    ensures Strip(pre + s + post) == Strip(s)
  {
    StripRemovesOnlySpace(s);
    var a, b := StripStart(s), StripEnd(s);
    var t := pre + s + post;
    StrippedAtPadded(pre, s, post, a, b);
    StripUnique(t, |pre| + a, |pre| + b);
    assert t[|pre| + a..|pre| + b] == s[a..b];
  }

  /** Stripping twice is stripping once. */
  lemma StripIdempotent(s: string)
    ensures Strip(Strip(s)) == Strip(s)
  {
    var r := Strip(s);
    assert r[..0] == [] && r[|r|..] == [];
    assert r[0..|r|] == r;
    StripUnique(r, 0, |r|);
  }
}

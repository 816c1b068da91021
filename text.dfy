/** The few Python string operations the book collection relies on:
    `str.lower()` (ASCII letters only), `str.strip()`, the substring test
    `q in s`, and the yes/no normalisation `answer.strip().lower() == "yes"`. */
module Text {

  /** The characters Python's `str.isspace()` accepts, which are the ones
      `str.strip()` with no argument removes. */
  predicate IsSpace(c: char) {
    c in SpaceChars
  }

  const SpaceChars: set<char> :=
    {'\t', '\n', '\U{0B}', '\U{0C}', '\r',            // tab, line feed, vertical tab, form feed, carriage return
     '\U{1C}', '\U{1D}', '\U{1E}', '\U{1F}',           // file, group, record and unit separators
     ' ', '\U{85}', '\U{A0}', '\U{1680}',
     '\U{2000}', '\U{2001}', '\U{2002}', '\U{2003}', '\U{2004}', '\U{2005}',
     '\U{2006}', '\U{2007}', '\U{2008}', '\U{2009}', '\U{200A}',
     '\U{2028}', '\U{2029}', '\U{202F}', '\U{205F}', '\U{3000}'}

  /** Every character of `s` at a position in `[lo, hi)` is whitespace. */
  predicate SpaceBetween(s: string, lo: int, hi: int) {
    forall i :: 0 <= lo <= i < hi <= |s| ==> IsSpace(s[i])
  }

  function LowerChar(c: char): (d: char)
    ensures 'A' <= c <= 'Z' ==> 'a' <= d <= 'z'
    ensures !('A' <= c <= 'Z') ==> d == c
  {
    if 'A' <= c <= 'Z' then (c as int - 'A' as int + 'a' as int) as char else c
  }

  /** `str.lower()`, restricted to ASCII letters. */
  function Lower(s: string): (r: string)
    ensures |r| == |s|
    ensures forall i :: 0 <= i < |s| ==> r[i] == LowerChar(s[i])
  {
    if s == [] then [] else [LowerChar(s[0])] + Lower(s[1..])
  }

  /** The first position at or after `i` that does not hold whitespace, or
      the length of `s`. */
  function SkipSpaces(s: string, i: nat): (k: nat)
    requires i <= |s|
    ensures i <= k <= |s|
    decreases |s| - i
  {
    if i < |s| && IsSpace(s[i]) then SkipSpaces(s, i + 1) else i
  }

  /** The end of the text once the whitespace before position `j`, down to
      `lo`, is dropped. */
  function DropSpaces(s: string, lo: nat, j: nat): (m: nat)
    requires lo <= j <= |s|
    ensures lo <= m <= j
  {
    if lo < j && IsSpace(s[j - 1]) then DropSpaces(s, lo, j - 1) else j
  }

  /** Where the text left by `str.strip()` starts: after the leading whitespace. */
  function StripStart(s: string): (k: nat)
    ensures k <= |s|
  {
    SkipSpaces(s, 0)
  }

  /** Where the text left by `str.strip()` ends: before the trailing whitespace
      of what follows its start. */
  function StripEnd(s: string): (m: nat)
    ensures StripStart(s) <= m <= |s|
  {
    DropSpaces(s, StripStart(s), |s|)
  }

  /** `str.strip()` with no argument: leading whitespace goes first, then the
      trailing whitespace of what is left. */
  function Strip(s: string): (r: string)
    ensures |r| <= |s|
    ensures r == [] || (!IsSpace(r[0]) && !IsSpace(r[|r| - 1]))
  {
    SkipSpacesRun(s, 0);
    DropSpacesRun(s, StripStart(s), |s|);
    s[StripStart(s)..StripEnd(s)]
  }

  /** The answer to "Have you read this book? (yes/no)" counts as yes. */
  predicate IsYes(answer: string)
    ensures IsYes(answer) ==> 3 <= |answer|
  {
    Lower(Strip(answer)) == "yes"
  }

  /** Python's `q in s` on strings: `q` occurs in `s` at some offset. */
  function Contains(s: string, q: string): (r: bool)
    ensures r <==> exists i :: 0 <= i <= |s| && q <= s[i..]
  {
    if q <= s then
      assert q <= s[0..];
      true
    else if s == [] then
      false
    else
      assert forall i :: 1 <= i <= |s| ==> s[1..][i - 1..] == s[i..];
      Contains(s[1..], q)
  }

  lemma {:induction false} SkipSpacesRun(s: string, i: nat)
    requires i <= |s|
    ensures SpaceBetween(s, i, SkipSpaces(s, i))
    ensures SkipSpaces(s, i) == |s| || !IsSpace(s[SkipSpaces(s, i)])
    decreases |s| - i
  {
    if i < |s| && IsSpace(s[i]) {
      SkipSpacesRun(s, i + 1);
    }
  }

  lemma {:induction false} DropSpacesRun(s: string, lo: nat, j: nat)
    requires lo <= j <= |s|
    ensures SpaceBetween(s, DropSpaces(s, lo, j), j)
    ensures DropSpaces(s, lo, j) == lo || !IsSpace(s[DropSpaces(s, lo, j) - 1])
  {
    if lo < j && IsSpace(s[j - 1]) {
      DropSpacesRun(s, lo, j - 1);
    }
  }

  /** Strip splits its argument into whitespace, a text that neither starts
      nor ends with whitespace, and whitespace. */
  lemma StripSplits(s: string)
    ensures var k, m := StripStart(s), StripEnd(s);
      && Strip(s) == s[k..m]
      && SpaceBetween(s, 0, k) && SpaceBetween(s, m, |s|)
      && (k == m || (!IsSpace(s[k]) && !IsSpace(s[m - 1])))
  {
    SkipSpacesRun(s, 0);
    DropSpacesRun(s, StripStart(s), |s|);
  }

  lemma {:induction false} SkipSpacesTo(s: string, i: nat, k: nat)
    requires i <= k <= |s|
    requires SpaceBetween(s, i, k)
    requires k == |s| || !IsSpace(s[k])
    ensures SkipSpaces(s, i) == k
    decreases k - i
  {
    if i < k {
      SkipSpacesTo(s, i + 1, k);
    }
  }

  lemma {:induction false} DropSpacesTo(s: string, lo: nat, m: nat, j: nat)
    requires lo <= m <= j <= |s|
    requires SpaceBetween(s, m, j)
    requires m == lo || !IsSpace(s[m - 1])
    ensures DropSpaces(s, lo, j) == m
    decreases j - m
  {
    if m < j {
      DropSpacesTo(s, lo, m, j - 1);
    }
  }

  /** Whatever whitespace surrounds a text without whitespace at its ends,
      stripping gives back exactly that text. */
  lemma StripUnique(s: string, k: nat, m: nat)
    requires k <= m <= |s|
    requires SpaceBetween(s, 0, k) && SpaceBetween(s, m, |s|)
    requires k == m || (!IsSpace(s[k]) && !IsSpace(s[m - 1]))
    ensures Strip(s) == s[k..m]
  {
    if k == m {
      SkipSpacesTo(s, 0, |s|);
      assert DropSpaces(s, |s|, |s|) == |s|;
    } else {
      SkipSpacesTo(s, 0, k);
      DropSpacesTo(s, k, m, |s|);
    }
  }

  /** Any spelling of "yes", padded with whitespace on either side, is a yes. */
  lemma PaddedYes(answer: string, k: nat, m: nat)
    requires k <= m <= |answer|
    requires SpaceBetween(answer, 0, k) && SpaceBetween(answer, m, |answer|)
    requires Lower(answer[k..m]) == "yes"
    ensures IsYes(answer)
  {
    var w := answer[k..m];
    assert |w| == 3;
    assert LowerChar(w[0]) == 'y' && LowerChar(w[2]) == 's';
    assert answer[k] == w[0] && answer[m - 1] == w[2];
    StripUnique(answer, k, m);
  }

  /** An answer is yes exactly when, apart from surrounding whitespace, it is
      "yes" in any mix of upper and lower case. */
  lemma IsYesIff(answer: string)
    ensures IsYes(answer) <==>
      exists k, m :: 0 <= k <= m <= |answer| && SpaceBetween(answer, 0, k) && SpaceBetween(answer, m, |answer|)
                     && Lower(answer[k..m]) == "yes"
  {
    if IsYes(answer) {
      StripSplits(answer);
    }
    if exists k, m :: 0 <= k <= m <= |answer| && SpaceBetween(answer, 0, k) && SpaceBetween(answer, m, |answer|)
                      && Lower(answer[k..m]) == "yes" {
      var k, m :| 0 <= k <= m <= |answer| && SpaceBetween(answer, 0, k) && SpaceBetween(answer, m, |answer|)
                  && Lower(answer[k..m]) == "yes";
      PaddedYes(answer, k, m);
    }
  }

  /** A concrete answer: padding and capitals are accepted. */
  lemma PaddedCapitalYes()
    ensures IsYes(" YES\n")
  {
    var s := " YES\n";
    assert s[1..4] == "YES";
    assert Lower("YES") == "yes";
    PaddedYes(s, 1, 4);
  }

  /** Concrete answers that count as no: prefixes of "yes", other words,
      and "yes" followed by more text. */
  lemma NotYesExamples()
    ensures !IsYes("y") && !IsYes("no") && !IsYes("") && !IsYes("yes please")
  {
    StripUnique("yes please", 0, 10);
    assert "yes please"[0..10] == "yes please";
  }
}

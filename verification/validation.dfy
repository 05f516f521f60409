/** The two format validators of the employee schema, over ASCII characters:
    the mobile pattern `^[0-9]{10}$` and the email pattern
    `^\w+([\.-]?\w+)*@\w+([\.-]?\w+)*(\.\w{2,3})+$`, both without the
    unicode flag, so `\w` is `[A-Za-z0-9_]`. */
module Validation {

  predicate IsDigit(c: char) {
    '0' <= c <= '9'
  }

  /** `\w`: an ASCII letter, digit or underscore. */
  predicate IsWordChar(c: char) {
    'a' <= c <= 'z' || 'A' <= c <= 'Z' || IsDigit(c) || c == '_'
  }

  /** `[\.-]` */
  predicate IsSeparator(c: char) {
    c == '.' || c == '-'
  }

  predicate AllWord(s: string) {
    forall i :: 0 <= i < |s| ==> IsWordChar(s[i])
  }

  /** `^[0-9]{10}$`: exactly ten ASCII digits and nothing else. */
  predicate ValidMobile(s: string) {
    |s| == 10 && forall i :: 0 <= i < |s| ==> IsDigit(s[i])
  }

  /** `\w+([\.-]?\w+)*`: word characters in runs joined by single '.' or '-';
      it starts and ends with a word character and never has two separators
      in a row. */
  predicate WordRuns(s: string) {
    && |s| > 0
    && IsWordChar(s[0])
    && IsWordChar(s[|s| - 1])
    && (forall i :: 0 <= i < |s| ==> IsWordChar(s[i]) || IsSeparator(s[i]))
    && (forall i :: 0 <= i < |s| - 1 && IsSeparator(s[i]) ==> IsWordChar(s[i + 1]))
  }

  /** One group `\.\w{2,3}`. */
  predicate TldGroup(g: string) {
    (|g| == 3 || |g| == 4) && g[0] == '.' && AllWord(g[1..])
  }

  /** `(\.\w{2,3})+`: one or more groups, read left to right. */
  predicate Groups(t: string)
    decreases |t|
  {
    || (|t| >= 3 && TldGroup(t[..3]) && (|t| == 3 || Groups(t[3..])))
    || (|t| >= 4 && TldGroup(t[..4]) && (|t| == 4 || Groups(t[4..])))
  }

  /** The domain half of the pattern, `\w+([\.-]?\w+)*(\.\w{2,3})+`, read as
      the regular expression reads it: word runs followed by the groups. */
  predicate DomainPattern(t: string) {
    exists j :: 0 < j < |t| && WordRuns(t[..j]) && Groups(t[j..])
  }

  /** The whole email pattern: a local part of word runs, one '@', a domain. */
  predicate ValidEmail(e: string) {
    exists i :: 0 <= i < |e| && e[i] == '@' && WordRuns(e[..i]) && DomainPattern(e[i + 1..])
  }

  /** The domain split at its last '.', `n` characters from the end: word runs
      before it and two or three word characters after it. */
  predicate TldSplit(t: string, n: nat) {
    && |t| > n > 0
    && t[|t| - n] == '.'
    && WordRuns(t[..|t| - n])
    && AllWord(t[|t| - n + 1..])
  }

  /** The domain's shape stated from its end: word runs, a final '.', and a
      last run of two or three word characters. */
  predicate ValidDomain(t: string) {
    TldSplit(t, 3) || TldSplit(t, 4)
  }

  /** The string ends with '.' followed by two or three word characters. */
  predicate EndsWithTld(s: string) {
    || (|s| >= 3 && s[|s| - 3] == '.' && IsWordChar(s[|s| - 2]) && IsWordChar(s[|s| - 1]))
    || (|s| >= 4 && s[|s| - 4] == '.' && IsWordChar(s[|s| - 3]) && IsWordChar(s[|s| - 2])
        && IsWordChar(s[|s| - 1]))
  }

  /** Positions of '@' in a string. */
  function AtSigns(s: string): set<nat> {
    set k: nat | k < |s| && s[k] == '@'
  }

  /** Appending one `\.\w{2,3}` group to word runs gives word runs again. */
  lemma WordRunsAppendGroup(s: string, g: string)
    requires WordRuns(s) && TldGroup(g)
    ensures WordRuns(s + g)
  {
    var u := s + g;
    forall i | 0 <= i < |u|
      ensures IsWordChar(u[i]) || IsSeparator(u[i])
    {
      if i >= |s| + 1 {
        assert u[i] == g[1..][i - |s| - 1];
      }
    }
    forall i | 0 <= i < |u| - 1
      ensures IsSeparator(u[i]) ==> IsWordChar(u[i + 1])
    {
      if i < |s| - 1 {
        assert u[i] == s[i] && u[i + 1] == s[i + 1];
      } else if i == |s| - 1 {
        assert u[i] == s[|s| - 1];
      } else if i == |s| {
        assert u[i + 1] == g[1..][0];
      } else {
        assert u[i] == g[1..][i - |s| - 1];
      }
    }
    assert u[|u| - 1] == g[1..][|g| - 2];
  }

  /** Reading the groups left to right from a split point `j` ends in the
      same place as splitting at the last '.'. */
  lemma {:induction false} GroupsGiveDomain(t: string, j: nat)
    requires 0 < j < |t| && WordRuns(t[..j]) && Groups(t[j..])
    ensures ValidDomain(t)
    decreases |t| - j
  {
    var rest := t[j..];
    var n: nat := if |rest| >= 3 && TldGroup(rest[..3]) && (|rest| == 3 || Groups(rest[3..])) then 3 else 4;
    assert TldGroup(rest[..n]) && (|rest| == n || Groups(rest[n..]));
    assert t[..j + n] == t[..j] + rest[..n];
    WordRunsAppendGroup(t[..j], rest[..n]);
    if |rest| == n {
      assert t[..|t| - n] == t[..j];
      assert t[|t| - n + 1..] == rest[..n][1..];
      assert TldSplit(t, n);
    } else {
      assert t[j + n..] == rest[n..];
      GroupsGiveDomain(t, j + n);
    }
  }

  /** The end-first reading of the domain is exactly the regular expression's
      left-to-right reading. */
  lemma DomainPatternIff(t: string)
    ensures DomainPattern(t) <==> ValidDomain(t)
  {
    if DomainPattern(t) {
      var j :| 0 < j < |t| && WordRuns(t[..j]) && Groups(t[j..]);
      GroupsGiveDomain(t, j);
    }
    if ValidDomain(t) {
      var n := if TldSplit(t, 3) then 3 else 4;
      var j := |t| - n;
      var g := t[j..];
      assert g[..n] == g;
      assert g[1..] == t[|t| - n + 1..];
      assert TldGroup(g);
      assert Groups(g);
      assert t[..j] == t[..|t| - n];
      assert 0 < j < |t| && WordRuns(t[..j]) && Groups(t[j..]);
    }
  }

  /** Word runs contain neither '@' nor anything outside `[\w.-]`. */
  lemma WordRunsHaveNoAt(s: string)
    requires WordRuns(s)
    ensures forall k :: 0 <= k < |s| ==> s[k] != '@'
  {
  }

  /** A valid domain has no '@' and ends with '.' and two or three word
      characters. */
  lemma DomainShape(t: string)
    requires DomainPattern(t)
    ensures forall k :: 0 <= k < |t| ==> t[k] != '@'
    ensures EndsWithTld(t)
  {
    DomainPatternIff(t);
    var n := if TldSplit(t, 3) then 3 else 4;
    var head := t[..|t| - n];
    WordRunsHaveNoAt(head);
    forall k | 0 <= k < |t|
      ensures t[k] != '@'
    {
      if k < |t| - n {
        assert t[k] == head[k];
      } else if k > |t| - n {
        assert t[k] == t[|t| - n + 1..][k - (|t| - n + 1)];
      }
    }
    assert t[|t| - n + 1..][0] == t[|t| - n + 1];
    assert t[|t| - 1] == t[|t| - n + 1..][n - 2];
    if n == 4 {
      assert t[|t| - 2] == t[|t| - n + 1..][1];
    }
  }

  /** The '@' that splits a valid email is its only one. */
  lemma SplitAtIsOnlyAt(e: string, i: nat)
    requires i < |e| && e[i] == '@' && WordRuns(e[..i]) && DomainPattern(e[i + 1..])
    ensures AtSigns(e) == {i}
  {
    var local, domain := e[..i], e[i + 1..];
    WordRunsHaveNoAt(local);
    DomainShape(domain);
    forall k | 0 <= k < |e| && k != i
      ensures e[k] != '@'
    {
      if k < i {
        assert e[k] == local[k];
      } else {
        assert e[k] == domain[k - i - 1];
      }
    }
  }

  /** A string ends like its suffix does. */
  lemma SuffixEndsWithTld(e: string, i: nat)
    requires i <= |e| && EndsWithTld(e[i..])
    ensures EndsWithTld(e)
  {
    var t := e[i..];
    var m := |t|;
    assert e[|e| - 1] == t[m - 1] && e[|e| - 2] == t[m - 2] && e[|e| - 3] == t[m - 3];
    if m >= 4 {
      assert e[|e| - 4] == t[m - 4];
    }
  }

  /** Every valid email contains exactly one '@' and ends with '.' followed
      by two or three word characters. */
  lemma EmailShape(e: string)
    requires ValidEmail(e)
    ensures |AtSigns(e)| == 1
    ensures EndsWithTld(e)
  {
    var i :| 0 <= i < |e| && e[i] == '@' && WordRuns(e[..i]) && DomainPattern(e[i + 1..]);
    SplitAtIsOnlyAt(e, i);
    DomainShape(e[i + 1..]);
    SuffixEndsWithTld(e, i + 1);
  }

  /** Concrete readings of the mobile pattern. */
  lemma MobileExamples()
    ensures ValidMobile("0123456789")
    ensures !ValidMobile("012345678")
    ensures !ValidMobile("01234567890")
    ensures !ValidMobile("01234-6789")
  {
    assert "01234-6789"[5] == '-';
  }

  /** An ordinary address matches the email pattern. */
  lemma EmailAccepted()
    ensures ValidEmail("jane.doe@acme.com")
  {
    var e := "jane.doe@acme.com";
    var d := e[9..];
    assert e[..8] == "jane.doe";
    assert WordRuns(e[..8]);
    assert d[..4] == "acme" && d[4..] == ".com";
    assert d[4..][..4] == d[4..];
    assert TldGroup(d[4..]);
    assert Groups(d[4..]);
    assert DomainPattern(d);
    assert e[8] == '@';
  }

  /** A four-letter top-level domain is rejected. */
  lemma LongTldRejected()
    ensures !ValidEmail("jane@acme.info")
  {
    var e := "jane@acme.info";
    assert !EndsWithTld(e);
    if ValidEmail(e) {
      EmailShape(e);
    }
  }

  /** A domain without a '.' is rejected. */
  lemma MissingTldRejected()
    ensures !ValidEmail("jane@acme")
  {
    var e := "jane@acme";
    assert !EndsWithTld(e);
    if ValidEmail(e) {
      EmailShape(e);
    }
  }

  /** A doubled '@' is rejected. */
  lemma DoubleAtRejected()
    ensures !ValidEmail("jane@@acme.com")
  {
    var e := "jane@@acme.com";
    var a := AtSigns(e);
    assert 4 in a && 5 in a;
    assert 5 in a - {4};
    assert |a - {4}| == |a| - 1;
    assert |a| != 1;
    if ValidEmail(e) {
      EmailShape(e);
    }
  }
}

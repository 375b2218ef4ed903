/** The pattern `^[^@]+@[^@]+\.[^@]+$` that the e-mail prompt matches a
    stripped line against. */
module EmailPattern {

  predicate NoAt(s: string)
  {
    forall k | 0 <= k < |s| :: s[k] != '@'
  }

  /** The part after the `@`: no `@`, and a `.` with at least one character
      before and after it (`[^@]+\.[^@]+`). */
  predicate IsDomain(s: string)
  {
    NoAt(s) && exists k | 1 <= k < |s| - 1 :: s[k] == '.'
  }

  /** `re.match(pattern, s)` succeeds: a non-empty local part without `@`,
      one `@`, then a domain. Since `[^@]` also matches a line break and the
      line is stripped, `$` can only match at the very end. */
  predicate IsEmail(s: string)
  {
    exists at | 1 <= at < |s| :: s[at] == '@' && NoAt(s[..at]) && IsDomain(s[at + 1..])
  }

  /** A matching line has exactly one `@`. */
  lemma OneAt(s: string)
    requires IsEmail(s)
    ensures exists at | 0 <= at < |s| :: s[at] == '@' && forall k | 0 <= k < |s| && k != at :: s[k] != '@'
  {
    var at :| 1 <= at < |s| && s[at] == '@' && NoAt(s[..at]) && IsDomain(s[at + 1..]);
    forall k | 0 <= k < |s| && k != at ensures s[k] != '@' {
      if k < at { assert s[k] == s[..at][k]; } else { assert s[k] == s[at + 1..][k - at - 1]; }
    }
  }

  /** `local + "@" + left + "." + right`, the parts of a matching line. */
  predicate Decomposes(s: string, local: string, left: string, right: string)
  {
    local + "@" + left + "." + right == s
    && local != [] && left != [] && right != [] && NoAt(local) && NoAt(left) && NoAt(right)
  }

  /** Cutting a line at its `@` and at a `.` after it gives back the line. */
  lemma Cut(s: string, at: nat, k: nat)
    requires at < |s| && s[at] == '@' && at + 1 + k < |s| && s[at + 1 + k] == '.'
    ensures s[..at] + "@" + s[at + 1..][..k] + "." + s[at + 1..][k + 1..] == s
  {
    var d := s[at + 1..];
    assert d == d[..k] + "." + d[k + 1..];
    assert s == s[..at] + "@" + d;
  }

  lemma ShapeOfMatch(s: string) returns (local: string, left: string, right: string)
    requires IsEmail(s)
    ensures Decomposes(s, local, left, right)
  {
    var at :| 1 <= at < |s| && s[at] == '@' && NoAt(s[..at]) && IsDomain(s[at + 1..]);
    var d := s[at + 1..];
    var k :| 1 <= k < |d| - 1 && d[k] == '.';
    Cut(s, at, k);
    local, left, right := s[..at], d[..k], d[k + 1..];
    assert NoAt(left) by { forall j | 0 <= j < |left| ensures left[j] != '@' { assert left[j] == d[j]; } }
    assert NoAt(right) by { forall j | 0 <= j < |right| ensures right[j] != '@' { assert right[j] == d[k + 1 + j]; } }
  }

  lemma MatchOfShape(s: string, local: string, left: string, right: string)
    requires Decomposes(s, local, left, right)
    ensures IsEmail(s)
  {
    var at := |local|;
    var d := left + "." + right;
    assert s == local + "@" + d;
    assert s[..at] == local;
    assert s[at + 1..] == d;
    assert d[|left|] == '.';
    assert NoAt(d) by {
      forall j | 0 <= j < |d| ensures d[j] != '@' {
        if j < |left| { assert d[j] == left[j]; }
        else if j > |left| { assert d[j] == right[j - |left| - 1]; }
      }
    }
    assert s[at] == '@';
  }

  /** The pattern read as a decomposition: a line matches exactly when it is
      `local + "@" + left + "." + right` with three non-empty parts free of
      `@`. */
  lemma EmailShape(s: string)
    ensures IsEmail(s) <==> exists local, left, right :: Decomposes(s, local, left, right)
  {
    if IsEmail(s) {
      var local, left, right := ShapeOfMatch(s);
    }
    if exists local, left, right :: Decomposes(s, local, left, right) {
      var local, left, right :| Decomposes(s, local, left, right);
      MatchOfShape(s, local, left, right);
    }
  }
}

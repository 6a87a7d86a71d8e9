/**
 * The format check on `User#email`: the regular expression
 * `\A([^@\s]+)@((?:[-a-z0-9]+\.)+[a-z]{2,})\z` with the `i` flag, written
 * out as a scanner (MatchesFormat) and, beside it, as the language the
 * expression denotes (Decomposes); the two are proved to agree.
 */
module Email {
  import opened Wrappers

  /** `\s` in a Ruby regular expression: space, tab, line feed, vertical tab,
      form feed and carriage return. */
  predicate IsRegexSpace(c: char) {
    c == ' ' || c == '\t' || c == '\n' || c == '\U{B}' || c == '\U{C}' || c == '\r'
  }

  /** `[a-z]` under the `i` flag: an ASCII letter of either case. */
  predicate IsLetter(c: char) {
    'a' <= c <= 'z' || 'A' <= c <= 'Z'
  }

  /** `[-a-z0-9]` under the `i` flag. */
  predicate IsLabelChar(c: char) {
    c == '-' || '0' <= c <= '9' || IsLetter(c)
  }

  /** The first position of `c` in `s`, if any. */
  function IndexOf(s: string, c: char): (r: Option<nat>)
    ensures r.None? ==> c !in s
    ensures r.Some? ==> r.value < |s| && s[r.value] == c && c !in s[..r.value]
    decreases |s|
  {
    if s == [] then None
    else if s[0] == c then Some(0)
    else match IndexOf(s[1..], c)
      case None => None
      case Some(i) =>
        assert s[..i + 1] == [s[0]] + s[1..][..i];
        Some(i + 1)
  }

  /** The last position of `c` in `s`, if any. */
  function LastIndexOf(s: string, c: char): (r: Option<nat>)
    ensures r.None? ==> c !in s
    ensures r.Some? ==> r.value < |s| && s[r.value] == c && c !in s[r.value + 1..]
    decreases |s|
  {
    if s == [] then None
    else if s[|s| - 1] == c then Some(|s| - 1)
    else
      match LastIndexOf(s[..|s| - 1], c)
      case None =>
        assert s == s[..|s| - 1] + [s[|s| - 1]];
        None
      case Some(i) =>
        assert s[i + 1..] == s[..|s| - 1][i + 1..] + [s[|s| - 1]];
        Some(i)
  }

  /** `[^@\s]+`: the part before the `@`. */
  predicate IsLocalPart(l: string) {
    |l| > 0 && forall i :: 0 <= i < |l| ==> l[i] != '@' && !IsRegexSpace(l[i])
  }

  /** `[-a-z0-9]+`: one label of the domain. */
  predicate IsLabel(l: string) {
    |l| > 0 && forall i :: 0 <= i < |l| ==> IsLabelChar(l[i])
  }

  /** `[a-z]{2,}`: the last label of the domain. */
  predicate IsTopLabel(t: string) {
    |t| >= 2 && forall i :: 0 <= i < |t| ==> IsLetter(t[i])
  }

  /** `(?:[-a-z0-9]+\.)+`, scanned label by label: a label never holds a
      dot, so each one ends at the next dot. */
  predicate DottedLabels(p: string)
    decreases |p|
  {
    match IndexOf(p, '.')
    case None => false
    case Some(k) => IsLabel(p[..k]) && (k + 1 == |p| || DottedLabels(p[k + 1..]))
  }

  /** `(?:[-a-z0-9]+\.)+[a-z]{2,}`: the last label holds no dot, so it
      starts after the last dot. */
  predicate IsDomain(d: string) {
    match LastIndexOf(d, '.')
    case None => false
    case Some(j) => DottedLabels(d[..j + 1]) && IsTopLabel(d[j + 1..])
  }

  /** The whole match, anchored at both ends: the local part holds no `@`,
      so the `@` it stops at is the first one. */
  predicate MatchesFormat(s: string) {
    match IndexOf(s, '@')
    case None => false
    case Some(i) => IsLocalPart(s[..i]) && IsDomain(s[i + 1..])
  }

  /** `validates :email, format: ...`: a missing (`nil`) email never matches. */
  predicate ValidEmail(email: Option<string>) {
    email.Some? && MatchesFormat(email.value)
  }

  // ---------------------------------------------------------------------
  // The language of the expression

  /** Labels, each followed by a dot. */
  function JoinDotted(labels: seq<string>): string
    decreases |labels|
  {
    if labels == [] then "" else labels[0] + "." + JoinDotted(labels[1..])
  }

  /** A domain made of dotted labels and a top label. */
  function DomainOf(labels: seq<string>, top: string): string {
    JoinDotted(labels) + top
  }

  /** `s` is a local part, an `@`, one or more dotted labels and a top label. */
  ghost predicate Decomposes(s: string, local: string, labels: seq<string>, top: string) {
    && IsLocalPart(local)
    && |labels| >= 1
    && (forall i :: 0 <= i < |labels| ==> IsLabel(labels[i]))
    && IsTopLabel(top)
    && s == local + "@" + DomainOf(labels, top)
  }

  /** The first `c` is at `k` when `s[k]` is `c` and no `c` comes before it. */
  lemma IndexOfAt(s: string, c: char, k: nat)
    requires k < |s| && s[k] == c && c !in s[..k]
    ensures IndexOf(s, c) == Some(k)
  {
    var r := IndexOf(s, c);
    assert s[k] in s;
    assert forall v :: 0 <= v < k ==> s[v] == s[..k][v];
    assert forall j :: k < j <= |s| ==> s[..j][k] == c;
  }

  /** The last `c` is at `k` when `s[k]` is `c` and no `c` comes after it. */
  lemma LastIndexOfAt(s: string, c: char, k: nat)
    requires k < |s| && s[k] == c && c !in s[k + 1..]
    ensures LastIndexOf(s, c) == Some(k)
  {
    var r := LastIndexOf(s, c);
    assert s[k] in s;
    assert forall v :: k < v < |s| ==> s[v] == s[k + 1..][v - k - 1];
    forall j | 0 < j <= k ensures c in s[j..] {
      assert s[j..][k - j] == c;
    }
  }

  /** Dotted labels hold only label characters and dots, and end with a dot. */
  lemma {:induction false} JoinDottedChars(labels: seq<string>)
    requires forall i :: 0 <= i < |labels| ==> IsLabel(labels[i])
    ensures forall i :: 0 <= i < |JoinDotted(labels)| ==> IsLabelChar(JoinDotted(labels)[i]) || JoinDotted(labels)[i] == '.'
    ensures labels != [] ==> JoinDotted(labels)[|JoinDotted(labels)| - 1] == '.'
    decreases |labels|
  {
    if labels != [] {
      JoinDottedChars(labels[1..]);
      var rest := JoinDotted(labels[1..]);
      assert JoinDotted(labels) == labels[0] + ("." + rest);
      forall i | 0 <= i < |JoinDotted(labels)|
        ensures IsLabelChar(JoinDotted(labels)[i]) || JoinDotted(labels)[i] == '.'
      {
        if i > |labels[0]| {
          assert JoinDotted(labels)[i] == rest[i - |labels[0]| - 1];
        }
      }
    }
  }

  /** The scanner accepts every string of dotted labels. */
  lemma {:induction false} DottedLabelsOfJoin(labels: seq<string>)
    requires |labels| >= 1
    requires forall i :: 0 <= i < |labels| ==> IsLabel(labels[i])
    ensures DottedLabels(JoinDotted(labels))
    decreases |labels|
  {
    var p := JoinDotted(labels);
    var k := |labels[0]|;
    assert p == labels[0] + "." + JoinDotted(labels[1..]);
    assert p[..k] == labels[0];
    assert p[k + 1..] == JoinDotted(labels[1..]);
    IndexOfAt(p, '.', k);
    if |labels| > 1 {
      DottedLabelsOfJoin(labels[1..]);
    }
  }

  /** Every string the scanner accepts as dotted labels is one. */
  lemma {:induction false} JoinOfDottedLabels(p: string) returns (labels: seq<string>)
    requires DottedLabels(p)
    ensures |labels| >= 1 && (forall i :: 0 <= i < |labels| ==> IsLabel(labels[i]))
    ensures p == JoinDotted(labels)
    decreases |p|
  {
    var k := IndexOf(p, '.').value;
    if k + 1 == |p| {
      labels := [p[..k]];
      assert JoinDotted(labels[1..]) == "";
    } else {
      var rest := JoinOfDottedLabels(p[k + 1..]);
      labels := [p[..k]] + rest;
      assert labels[1..] == rest;
    }
    assert p == p[..k] + "." + p[k + 1..];
  }

  /** Dotted labels followed by a top label make a domain. */
  lemma DomainOfJoin(labels: seq<string>, top: string)
    requires IsTopLabel(top)
    requires |labels| >= 1 && forall i :: 0 <= i < |labels| ==> IsLabel(labels[i])
    ensures IsDomain(DomainOf(labels, top))
  {
    var p := JoinDotted(labels);
    var d := p + top;
    JoinDottedChars(labels);
    DottedLabelsOfJoin(labels);
    var j := |p| - 1;
    assert d[..j + 1] == p;
    assert d[j + 1..] == top;
    LastIndexOfAt(d, '.', j);
  }

  /** A local part, an `@`, dotted labels and a top label make a matching address. */
  lemma Composed(local: string, labels: seq<string>, top: string)
    requires IsLocalPart(local) && IsTopLabel(top)
    requires |labels| >= 1 && forall i :: 0 <= i < |labels| ==> IsLabel(labels[i])
    ensures MatchesFormat(local + "@" + DomainOf(labels, top))
  {
    var d := DomainOf(labels, top);
    DomainOfJoin(labels, top);
    var s := local + "@" + d;
    assert s[..|local|] == local;
    assert s[|local| + 1..] == d;
    MatchesAt(s, |local|);
  }

  /** The match splits at an `@` with no `@` before it. */
  lemma MatchesAt(s: string, i: nat)
    requires i < |s| && s[i] == '@'
    requires IsLocalPart(s[..i]) && IsDomain(s[i + 1..])
    ensures MatchesFormat(s)
  {
    IndexOfAt(s, '@', i);
  }

  /** Every domain the scanner accepts splits into dotted labels and a top label. */
  lemma DecomposeDomain(d: string) returns (labels: seq<string>, top: string)
    requires IsDomain(d)
    ensures |labels| >= 1 && (forall i :: 0 <= i < |labels| ==> IsLabel(labels[i]))
    ensures IsTopLabel(top) && d == DomainOf(labels, top)
  {
    var j := LastIndexOf(d, '.').value;
    top := d[j + 1..];
    labels := JoinOfDottedLabels(d[..j + 1]);
    assert d == d[..j + 1] + d[j + 1..];
  }

  /** Every address the scanner accepts splits as the expression says. */
  lemma Decompose(s: string) returns (local: string, labels: seq<string>, top: string)
    requires MatchesFormat(s)
    ensures Decomposes(s, local, labels, top)
  {
    local, labels, top := DecomposeAt(s, IndexOf(s, '@').value);
  }

  /** An address split at an `@` into a local part and a domain decomposes. */
  lemma DecomposeAt(s: string, i: nat) returns (local: string, labels: seq<string>, top: string)
    requires i < |s| && s[i] == '@'
    requires IsLocalPart(s[..i]) && IsDomain(s[i + 1..])
    ensures Decomposes(s, local, labels, top)
  {
    local := s[..i];
    var d := s[i + 1..];
    labels, top := DecomposeDomain(d);
    assert s == local + "@" + d;
  }

  /** The scanner accepts exactly the strings of the expression's language. */
  lemma MatchesFormatIff(s: string)
    ensures MatchesFormat(s) <==> exists local, labels, top :: Decomposes(s, local, labels, top)
  {
    if MatchesFormat(s) {
      var local, labels, top := Decompose(s);
    }
    if exists local, labels, top :: Decomposes(s, local, labels, top) {
      var local, labels, top :| Decomposes(s, local, labels, top);
      Composed(local, labels, top);
    }
  }

  /** A domain holds no `@`. */
  lemma DomainHasNoAt(d: string)
    requires IsDomain(d)
    ensures '@' !in d
  {
    var j := LastIndexOf(d, '.').value;
    var labels := JoinOfDottedLabels(d[..j + 1]);
    JoinDottedChars(labels);
    forall k | 0 <= k < |d| ensures d[k] != '@' {
      if k <= j {
        assert d[k] == d[..j + 1][k];
      } else {
        assert d[k] == d[j + 1..][k - j - 1];
      }
    }
  }

  // ---------------------------------------------------------------------
  // What the tests of the format check expect

  /** An accepted address has exactly one `@`, preceded by a non-empty part
      without whitespace. */
  lemma AcceptedHasOneAt(s: string)
    requires MatchesFormat(s)
    ensures exists i :: 0 < i < |s| && s[i] == '@'
                        && (forall j :: 0 <= j < |s| && j != i ==> s[j] != '@')
                        && (forall j :: 0 <= j < i ==> !IsRegexSpace(s[j]))
  {
    var i := IndexOf(s, '@').value;
    DomainHasNoAt(s[i + 1..]);
    OnlyAt(s, i);
  }

  /** An `@` after a local part and before an `@`-free rest is the only one. */
  lemma OnlyAt(s: string, i: nat)
    requires i < |s| && s[i] == '@'
    requires IsLocalPart(s[..i]) && '@' !in s[i + 1..]
    ensures 0 < i
    ensures forall j :: 0 <= j < |s| && j != i ==> s[j] != '@'
    ensures forall j :: 0 <= j < i ==> !IsRegexSpace(s[j])
  {
    var d := s[i + 1..];
    forall k | 0 <= k < |s| && k != i ensures s[k] != '@' {
      if k < i {
        assert s[k] == s[..i][k];
      } else {
        assert s[k] == d[k - i - 1];
      }
    }
    forall k | 0 <= k < i ensures !IsRegexSpace(s[k]) {
      assert s[k] == s[..i][k];
    }
  }

  lemma AcceptsExample()
    ensures ValidEmail(Some("test@test.com"))
  {
    assert DomainOf(["test"], "com") == "test.com";
    assert "test" + "@" + "test.com" == "test@test.com";
    Composed("test", ["test"], "com");
  }

  lemma RejectsMissingAndEmpty()
    ensures !ValidEmail(None)
    ensures !ValidEmail(Some(""))
  {
  }

  lemma RejectsWithoutAt()
    ensures !ValidEmail(Some("testtest.com"))
  {
    var s := "testtest.com";
    assert '@' !in s by {
      forall i | 0 <= i < |s| ensures s[i] != '@' { }
    }
    WithoutAtRejected(s);
  }

  /** A string without an `@` never matches. */
  lemma WithoutAtRejected(s: string)
    requires '@' !in s
    ensures !MatchesFormat(s)
  {
    assert IndexOf(s, '@').None?;
  }
}

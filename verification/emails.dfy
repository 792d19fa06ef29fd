/** The Email value object: a string accepted by the pattern ^[A-Za-z0-9+_.-]+@(.+)$. */
module Emails {
  import opened Wrappers
  import Strings

  /** The character class [A-Za-z0-9+_.-] of the part before the `@`. */
  predicate IsLocalChar(c: char) {
    || 'A' <= c <= 'Z'
    || 'a' <= c <= 'z'
    || '0' <= c <= '9'
    || c == '+' || c == '_' || c == '.' || c == '-'
  }

  /** The characters java.util.regex's `.` does not match (neither DOTALL nor UNIX_LINES is set). */
  predicate IsLineTerminator(c: char) {
    c == '\n' || c == '\r' || c as int == 0x85 || c as int == 0x2028 || c as int == 0x2029
  }

  /**
    * The whole of s matches the pattern with the `@` at position k: a non-empty run of
    * local characters, the `@`, and at least one character that is not a line terminator.
    */
  ghost predicate MatchesAt(s: string, k: int) {
    && 1 <= k < |s| - 1
    && (forall i :: 0 <= i < k ==> IsLocalChar(s[i]))
    && s[k] == '@'
    && (forall i :: k < i < |s| ==> !IsLineTerminator(s[i]))
  }

  /** Pattern.matcher(s).matches() for ^[A-Za-z0-9+_.-]+@(.+)$ */
  ghost predicate MatchesPattern(s: string) {
    exists k :: MatchesAt(s, k)
  }

  /** Length of the run of local characters that starts s. */
  function LocalRunLength(s: string): nat {
    if |s| > 0 && IsLocalChar(s[0]) then 1 + LocalRunLength(s[1..]) else 0
  }

  /** LocalRunLength is the length of the longest prefix of local characters. */
  lemma {:induction false} LocalRunIsLongest(s: string)
    ensures LocalRunLength(s) <= |s|
    ensures forall i :: 0 <= i < LocalRunLength(s) ==> IsLocalChar(s[i])
    ensures LocalRunLength(s) < |s| ==> !IsLocalChar(s[LocalRunLength(s)])
  {
    if |s| > 0 && IsLocalChar(s[0]) {
      LocalRunIsLongest(s[1..]);
      forall i | 0 <= i < LocalRunLength(s) ensures IsLocalChar(s[i]) {
        if i > 0 {
          assert s[i] == s[1..][i - 1];
        }
      }
    }
  }

  /** The matcher: since `@` is not a local character, the run of local characters must end at the `@`. */
  predicate IsValid(s: string) {
    var k := LocalRunLength(s);
    1 <= k < |s| - 1 && s[k] == '@' && forall i :: k < i < |s| ==> !IsLineTerminator(s[i])
  }

  /** A prefix made only of local characters adds its length to the run. */
  lemma {:induction false} RunOfLocalPrefix(a: string, b: string)
    requires LocalRunLength(a) == |a|
    ensures LocalRunLength(a + b) == |a| + LocalRunLength(b)
  {
    if a != [] {
      assert IsLocalChar(a[0]);
      assert (a + b)[0] == a[0] && (a + b)[1..] == a[1..] + b;
      RunOfLocalPrefix(a[1..], b);
    } else {
      assert a + b == b;
    }
  }

  lemma IsValidMatchesPattern(s: string)
    ensures IsValid(s) <==> MatchesPattern(s)
  {
    var n := LocalRunLength(s);
    LocalRunIsLongest(s);
    if IsValid(s) {
      assert MatchesAt(s, n);
    }
    if k :| MatchesAt(s, k) {
      assert !IsLocalChar(s[k]);
    }
  }

  datatype Email = Email(value: string) {
    /** Every Email object was accepted by the constructor. */
    predicate Valid() {
      IsValid(value)
    }
  }

  /** `new Email(value)`: null is refused before the pattern is tried; the value is kept verbatim. */
  function NewEmail(value: Option<string>): (r: Result<Email>)
    ensures value.None? ==> r == Err(NullPointer("Email cannot be null"))
    ensures value.Some? && !MatchesPattern(value.value) ==>
              r == Err(IllegalArgument("Invalid email format: " + value.value))
    ensures r.Ok? <==> value.Some? && MatchesPattern(value.value)
    ensures r.Ok? ==> r.value.value == value.value && r.value.Valid()
  {
    if value.None? then
      Err(NullPointer("Email cannot be null"))
    else
      IsValidMatchesPattern(value.value);
      if !IsValid(value.value) then Err(IllegalArgument("Invalid email format: " + value.value))
      else Ok(Email(value.value))
  }

  /** Email.equals: exact, case-sensitive comparison of the strings. */
  predicate Equals(a: Email, b: Email) {
    a.value == b.value
  }

  /** Email.hashCode(): Objects.hash(value). */
  function HashCode(e: Email): int {
    Strings.SingleFieldHash(Strings.StringHash(e.value))
  }

  /** Two emails are equal exactly when they are the same value, and equal emails hash alike. */
  lemma EqualsIsValueEquality(a: Email, b: Email)
    ensures Equals(a, b) <==> a == b
    ensures Equals(a, b) ==> HashCode(a) == HashCode(b)
  {
  }

  /** Upper and lower case are different emails. */
  lemma EqualsIsCaseSensitive()
    ensures !Equals(Email("test@example.com"), Email("Test@example.com"))
  {
  }

  /** An address assembled from a run of local characters, an `@` and a domain without line terminators is accepted. */
  lemma AcceptsSplit(local: string, domain: string)
    requires 1 <= |local| && LocalRunLength(local) == |local|
    requires 1 <= |domain| && forall i :: 0 <= i < |domain| ==> !IsLineTerminator(domain[i])
    ensures NewEmail(Some(local + "@" + domain)) == Ok(Email(local + "@" + domain))
  {
    var s := local + "@" + domain;
    assert s == local + ("@" + domain);
    RunOfLocalPrefix(local, "@" + domain);
    assert LocalRunLength("@" + domain) == 0;
    forall i | |local| < i < |s| ensures !IsLineTerminator(s[i]) {
      assert s[i] == domain[i - |local| - 1];
    }
    assert IsValid(s);
    IsValidMatchesPattern(s);
  }

  /** A string made only of local characters has no `@` and is refused. */
  lemma RejectsWithoutAt(local: string, rest: string)
    requires LocalRunLength(local) == |local| && LocalRunLength(rest) == |rest|
    ensures NewEmail(Some(local + rest)).Err?
  {
    RunOfLocalPrefix(local, rest);
    IsValidMatchesPattern(local + rest);
  }

  /** "invalid-email" has no `@` and is refused. */
  lemma RejectsAddressWithoutAt()
    ensures NewEmail(Some("invalid" + "-email")).Err?
  {
    RejectsWithoutAt("invalid", "-email");
  }

  /** "invalid@" has nothing after the `@` and is refused. */
  lemma RejectsEmptyDomain()
    ensures NewEmail(Some("invalid@")).Err?
  {
    assert !IsValid("invalid@") by { assert LocalRunLength("invalid@") == 7; }
    IsValidMatchesPattern("invalid@");
  }

  /** "@example.com" has nothing before the `@` and is refused. */
  lemma RejectsEmptyLocalPart()
    ensures NewEmail(Some("@example.com")).Err?
  {
    assert !IsValid("@example.com") by { assert LocalRunLength("@example.com") == 0; }
    IsValidMatchesPattern("@example.com");
  }

  /** A `+` tag before the `@` and a dotted sub-domain are accepted and kept verbatim. */
  lemma AcceptsTagAndSubDomain()
    ensures NewEmail(Some("valid+tag" + "@" + "example.com")) == Ok(Email("valid+tag" + "@" + "example.com"))
    ensures NewEmail(Some("valid" + "@" + "sub.example.com")) == Ok(Email("valid" + "@" + "sub.example.com"))
  {
    AcceptsSplit("valid+tag", "example.com");
    AcceptsSplit("valid", "sub.example.com");
  }

  /**
    * The pattern puts no structure on the domain and allows `@` after the first one, so it accepts
    * "invalid@example" and "invalid@.com", which the unit test lists as invalid, and "a@b@c".
    */
  lemma PatternAcceptsUnstructuredDomains()
    ensures NewEmail(Some("invalid" + "@" + "example")).Ok?
    ensures NewEmail(Some("invalid" + "@" + ".com")).Ok?
    ensures NewEmail(Some("a" + "@" + "b@c")).Ok?
  {
    AcceptsSplit("invalid", "example");
    AcceptsSplit("invalid", ".com");
    AcceptsSplit("a", "b@c");
  }
}

/** The contact form's e-mail check: the regular expression
    `^[^\s@]+@[^\s@]+\.[^\s@]+$`, stated directly as a predicate on where the
    `@` and the separating `.` fall, rather than through a regex engine. */
module Email {

  /** The characters `\s` matches in an ECMAScript regular expression: the
      WhiteSpace code points (tab, vertical tab, form feed, space, no-break
      space, zero-width no-break space and the other space separators) and the
      LineTerminator code points (line feed, carriage return, line and
      paragraph separator). The lemmas below use only that `' '` is whitespace and that the
      ASCII letters, digits and `.` are not. */
  predicate IsSpace(c: char) {
    c == '\t' || c == '\n' || c == '\U{000B}' || c == '\U{000C}' || c == '\r' ||
    c == ' ' || c == '\U{00A0}' || c == '\U{1680}' || ('\U{2000}' <= c <= '\U{200A}') ||
    c == '\U{2028}' || c == '\U{2029}' || c == '\U{202F}' || c == '\U{205F}' ||
    c == '\U{3000}' || c == '\U{FEFF}'
  }

  /** A character of the class `[^\s@]`. */
  predicate Plain(c: char) {
    !IsSpace(c) && c != '@'
  }

  /** A string matched by `[^\s@]+`. */
  predicate Segment(t: string) {
    |t| > 0 && forall k :: 0 <= k < |t| ==> Plain(t[k])
  }

  /** `s` matches the pattern with its `@` at index `i` and the `\.` at index `j`. */
  predicate SplitAt(s: string, i: int, j: int) {
    0 < i && i + 1 < j && j + 1 < |s| && s[i] == '@' && s[j] == '.' &&
    Segment(s[..i]) && Segment(s[i + 1..j]) && Segment(s[j + 1..])
  }

  /** isValidEmail: the anchored pattern matches the whole of `s` for some split. */
  predicate IsValidEmail(s: string) {
    exists i, j | 0 <= i < |s| && 0 <= j < |s| :: SplitAt(s, i, j)
  }

  predicate NoSpace(s: string) {
    forall k :: 0 <= k < |s| ==> !IsSpace(s[k])
  }

  lemma CountAtLeastTwo(s: string, a: int, b: int)
    requires 0 <= a < b < |s| && s[a] == s[b]
    ensures multiset(s)[s[a]] >= 2
  {
    var c := s[a];
    assert s == s[..b] + s[b..];
    assert s[..b][a] == c;
    assert s[b..][0] == c;
    assert multiset(s) == multiset(s[..b]) + multiset(s[b..]);
  }

  /** The pattern's shape without the split: an `@` that is not first, and
      after it a `.` with at least one character on each side. */
  predicate AtThenDot(s: string) {
    exists i, j :: 0 < i && i + 1 < j && j + 1 < |s| && s[i] == '@' && s[j] == '.'
  }

  lemma ValidEmailOnlyIf(s: string, i: int, j: int)
    requires SplitAt(s, i, j)
    ensures NoSpace(s) && multiset(s)['@'] == 1 && AtThenDot(s)
  {
    var l, d, t := s[..i], s[i + 1..j], s[j + 1..];
    assert s == l + [s[i]] + d + [s[j]] + t;
    forall k | 0 <= k < |s| ensures !IsSpace(s[k]) {
      if k < i {
        assert s[k] == l[k];
      } else if i < k < j {
        assert s[k] == d[k - i - 1];
      } else if j < k {
        assert s[k] == t[k - j - 1];
      }
    }
    assert '@' !in l && '@' !in d && '@' !in t;
    assert multiset(s) == multiset(l) + multiset([s[i]]) + multiset(d) + multiset([s[j]]) + multiset(t);
  }

  lemma ValidEmailIf(s: string, i: int, j: int)
    requires NoSpace(s) && multiset(s)['@'] == 1
    requires 0 < i && i + 1 < j && j + 1 < |s| && s[i] == '@' && s[j] == '.'
    ensures SplitAt(s, i, j)
  {
    forall k | 0 <= k < |s| && k != i ensures s[k] != '@' {
      if s[k] == '@' {
        if k < i { CountAtLeastTwo(s, k, i); } else { CountAtLeastTwo(s, i, k); }
      }
    }
    assert Segment(s[..i]);
    assert Segment(s[i + 1..j]);
    assert Segment(s[j + 1..]);
  }

  /** The pattern, restated without the split: no whitespace anywhere, exactly
      one `@`, not first, and a `.` after it with at least one character on
      each side. */
  lemma ValidEmailIff(s: string)
    ensures IsValidEmail(s) <==> NoSpace(s) && multiset(s)['@'] == 1 && AtThenDot(s)
  {
    if IsValidEmail(s) {
      var i, j :| 0 <= i < |s| && 0 <= j < |s| && SplitAt(s, i, j);
      ValidEmailOnlyIf(s, i, j);
    }
    if NoSpace(s) && multiset(s)['@'] == 1 && AtThenDot(s) {
      var i, j :| 0 < i && i + 1 < j && j + 1 < |s| && s[i] == '@' && s[j] == '.';
      ValidEmailIf(s, i, j);
    }
  }

  /** Any local part, domain and final label matched by `[^\s@]+`, put together
      as `L@D.T`, form a valid address. */
  lemma ValidEmailFromParts(l: string, d: string, t: string)
    requires Segment(l) && Segment(d) && Segment(t)
    ensures IsValidEmail(l + "@" + d + "." + t)
  {
    var s := l + "@" + d + "." + t;
    var i, j := |l|, |l| + 1 + |d|;
    assert s[..i] == l;
    assert s[i + 1..j] == d;
    assert s[j + 1..] == t;
    assert SplitAt(s, i, j);
  }

  /** Addresses the contact form accepts. */
  lemma EmailAccepted()
    ensures IsValidEmail("bob@example.com")
    ensures IsValidEmail("a@b..c")
  {
    ValidEmailFromParts("bob", "example", "com");
    assert "bob" + "@" + "example" + "." + "com" == "bob@example.com";
    ValidEmailFromParts("a", "b", ".c");
    assert "a" + "@" + "b" + "." + ".c" == "a@b..c";
  }

  /** An address with no `.` at all fails the pattern. */
  lemma NoDotRejected(s: string)
    requires '.' !in s
    ensures !IsValidEmail(s)
  {
  }

  /** An address with two `@` fails the pattern. */
  lemma TwoAtsRejected(s: string, a: int, b: int)
    requires 0 <= a < b < |s| && s[a] == '@' && s[b] == '@'
    ensures !IsValidEmail(s)
  {
    CountAtLeastTwo(s, a, b);
    if IsValidEmail(s) {
      var i, j :| 0 <= i < |s| && 0 <= j < |s| && SplitAt(s, i, j);
      ValidEmailOnlyIf(s, i, j);
    }
  }

  /** An address containing whitespace fails the pattern. */
  lemma SpaceRejected(s: string, k: int)
    requires 0 <= k < |s| && IsSpace(s[k])
    ensures !IsValidEmail(s)
  {
    if IsValidEmail(s) {
      var i, j :| 0 <= i < |s| && 0 <= j < |s| && SplitAt(s, i, j);
      ValidEmailOnlyIf(s, i, j);
    }
  }

  /** Addresses the contact form rejects. */
  lemma EmailRejected()
    ensures !IsValidEmail("bob@@nodot")
    ensures !IsValidEmail("bob@example")
    ensures !IsValidEmail("bob@@example.com")
    ensures !IsValidEmail("bob smith@example.com")
  {
    NoDotRejected("bob@@nodot");
    NoDotRejected("bob@example");
    TwoAtsRejected("bob@@example.com", 3, 4);
    SpaceRejected("bob smith@example.com", 3);
  }
}

/**
 * The e-mail check of the subscribe handler. The source writes it as the
 * regular expression `^[^\s@]+@[^\s@]+\.[^\s@]+$`; `MatchesEmailPattern`
 * states that expression's meaning directly (three runs of permitted
 * characters, split by an `@` and a `.`), and `IsValidEmail` is the
 * structural form of the same check, proved equal to it in `EmailShape`.
 */
module Email {
  import opened Text

  /** A character the class `[^\s@]` admits. */
  predicate Atom(c: char) {
    !IsSpace(c) && c != '@'
  }

  /** A run `[^\s@]+`. */
  predicate Atoms(t: string) {
    |t| > 0 && forall k :: 0 <= k < |t| ==> Atom(t[k])
  }

  /** `s` is matched, as a whole, by `[^\s@]+@[^\s@]+\.[^\s@]+`: some `@` at
      `i` and some `.` at `j` cut it into three non-empty runs. */
  ghost predicate MatchesEmailPattern(s: string) {
    exists i, j ::
      && 0 < i < j < |s| - 1
      && s[i] == '@' && s[j] == '.'
      && Atoms(s[..i]) && Atoms(s[i + 1..j]) && Atoms(s[j + 1..])
  }

  /** The domain has a `.` that is neither its first nor its last character. */
  predicate HasInnerDot(d: string) {
    exists k :: 0 < k < |d| - 1 && d[k] == '.'
  }

  /** `isValidEmail`, stated structurally: no white space, exactly one `@`, a
      non-empty local part, and a domain with an inner `.`. */
  predicate IsValidEmail(s: string) {
    && NoSpace(s)
    && multiset(s)['@'] == 1
    && var at := IndexOf(s, '@');
       0 < at < |s| && HasInnerDot(s[at + 1..])
  }

  /** A string without `c` counts no `c`, and one whose only `c` sits at `i`
      counts exactly one. */
  lemma {:induction false} CountAround(s: string, i: nat, c: char)
    requires i < |s| && s[i] == c
    requires c !in s[..i] && c !in s[i + 1..]
    ensures multiset(s)[c] == 1
  {
    assert s == s[..i] + [c] + s[i + 1..];
    assert multiset(s) == multiset(s[..i]) + multiset{c} + multiset(s[i + 1..]);
  }

  /** When `s` counts one `c` and the first is at `i`, there is none after. */
  lemma {:induction false} NoneAfterFirst(s: string, i: nat, c: char)
    requires i < |s| && s[i] == c && c !in s[..i]
    requires multiset(s)[c] == 1
    ensures c !in s[i + 1..]
  {
    assert s == s[..i] + [c] + s[i + 1..];
    assert multiset(s) == multiset(s[..i]) + multiset{c} + multiset(s[i + 1..]);
    assert multiset(s[..i])[c] == 0;
    assert multiset(s[i + 1..])[c] == 0;
  }

  /** The structural check and the regular expression accept the same
      strings. */
  lemma EmailShape(s: string)
    ensures IsValidEmail(s) <==> MatchesEmailPattern(s)
  {
    if IsValidEmail(s) {
      ValidMatches(s);
    }
    if MatchesEmailPattern(s) {
      var i, j :| && 0 < i < j < |s| - 1
                  && s[i] == '@' && s[j] == '.'
                  && Atoms(s[..i]) && Atoms(s[i + 1..j]) && Atoms(s[j + 1..]);
      MatchesValid(s, i, j);
    }
  }

  lemma {:induction false} ValidMatches(s: string)
    requires IsValidEmail(s)
    ensures MatchesEmailPattern(s)
  {
    var i := IndexOf(s, '@');
    var d := s[i + 1..];
    var k :| 0 < k < |d| - 1 && d[k] == '.';
    var j := i + 1 + k;
    NoneAfterFirst(s, i, '@');
    var local, mid, top := s[..i], s[i + 1..j], s[j + 1..];
    assert mid == d[..k] && top == d[k + 1..];
    assert Atoms(local) by {
      forall m | 0 <= m < |local| ensures Atom(local[m]) {
        assert local[m] == s[m];
      }
    }
    assert Atoms(mid) by {
      forall m | 0 <= m < |mid| ensures Atom(mid[m]) {
        assert mid[m] == d[m] == s[i + 1 + m];
      }
    }
    assert Atoms(top) by {
      forall m | 0 <= m < |top| ensures Atom(top[m]) {
        assert top[m] == d[k + 1 + m] == s[j + 1 + m];
      }
    }
    assert s[j] == '.';
  }

  lemma {:induction false} MatchesValid(s: string, i: nat, j: nat)
    requires 0 < i < j < |s| - 1
    requires s[i] == '@' && s[j] == '.'
    requires Atoms(s[..i]) && Atoms(s[i + 1..j]) && Atoms(s[j + 1..])
    ensures IsValidEmail(s)
  {
    var local, mid, top := s[..i], s[i + 1..j], s[j + 1..];
    var d := s[i + 1..];
    assert d == mid + ['.'] + top;
    forall m | 0 <= m < |s| ensures !IsSpace(s[m]) {
      if m < i {
        assert s[m] == local[m];
      } else if i < m < j {
        assert s[m] == mid[m - i - 1];
      } else if j < m {
        assert s[m] == top[m - j - 1];
      }
    }
    assert '@' !in local by {
      forall m | 0 <= m < |local| ensures local[m] != '@' { }
    }
    assert '@' !in d by {
      assert '@' !in mid by {
        forall m | 0 <= m < |mid| ensures mid[m] != '@' { }
      }
      assert '@' !in top by {
        forall m | 0 <= m < |top| ensures top[m] != '@' { }
      }
    }
    CountAround(s, i, '@');
    var at := IndexOf(s, '@');
    assert at == i;
    assert d[|mid|] == '.';
    assert HasInnerDot(d);
  }

  /** The empty string, which a missing field becomes, is never an e-mail. */
  lemma EmptyIsInvalid()
    ensures !MatchesEmailPattern("") && !IsValidEmail("")
  {
  }
}

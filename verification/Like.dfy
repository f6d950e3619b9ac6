/**
SQLite's LIKE: `%` matches any run of characters, `_` any one character, and the other
characters match themselves, ASCII letters whatever their case.
*/
module Like {

  function Lower(c: char): char {
    if 'A' <= c <= 'Z' then c - 'A' + 'a' else c
  }

  function LowerAll(s: string): string {
    seq(|s|, i requires 0 <= i < |s| => Lower(s[i]))
  }

  predicate MatchesChar(pattern: char, c: char) {
    pattern == '_' || Lower(pattern) == Lower(c)
  }

  predicate Matches(pattern: string, s: string)
    decreases |pattern|, |s|
  {
    if pattern == "" then s == ""
    else if pattern[0] == '%' then
      Matches(pattern[1..], s) || (s != "" && Matches(pattern, s[1..]))
    else s != "" && MatchesChar(pattern[0], s[0]) && Matches(pattern[1..], s[1..])
  }

  lemma {:induction false} PercentMatchesAll(s: string)
    ensures Matches("%", s)
  {
    if s != "" { PercentMatchesAll(s[1..]); }
  }

  // A pattern that ends in its only `%` looks at as many characters as come before it.
  lemma {:induction false} MatchesPrefix(head: string, s: string)
    requires '%' !in head
    ensures Matches(head + "%", s) <==> |head| <= |s| && forall i | 0 <= i < |head| :: MatchesChar(head[i], s[i])
  {
    if head == "" {
      assert head + "%" == "%";
      PercentMatchesAll(s);
    } else {
      assert (head + "%")[1..] == head[1..] + "%";
      if s != "" {
        MatchesPrefix(head[1..], s[1..]);
        assert forall i | 1 <= i < |head| :: head[i] == head[1..][i - 1];
        assert forall i | 1 <= i < |s| :: s[i] == s[1..][i - 1];
        if MatchesChar(head[0], s[0]) && |head| <= |s| && forall i | 0 <= i < |head[1..]| :: MatchesChar(head[1..][i], s[1..][i]) {
          forall i | 0 <= i < |head| ensures MatchesChar(head[i], s[i]) {
            if i > 0 { assert MatchesChar(head[1..][i - 1], s[1..][i - 1]); }
          }
        }
      }
    }
  }

  predicate NoWildcard(s: string) {
    '%' !in s && '_' !in s
  }

  // Without wildcards, LIKE 'head%' asks for a prefix, ignoring case.
  lemma MatchesLiteralPrefix(head: string, s: string)
    requires NoWildcard(head)
    ensures Matches(head + "%", s) <==> LowerAll(head) <= LowerAll(s)
  {
    MatchesPrefix(head, s);
    if LowerAll(head) <= LowerAll(s) {
      forall i | 0 <= i < |head| ensures MatchesChar(head[i], s[i]) {
        assert LowerAll(head)[i] == LowerAll(s)[i];
      }
    }
    if |head| <= |s| && forall i | 0 <= i < |head| :: MatchesChar(head[i], s[i]) {
      forall i | 0 <= i < |head| ensures LowerAll(head)[i] == LowerAll(s)[i] {
        assert head[i] in head;
        assert MatchesChar(head[i], s[i]);
      }
    }
  }

  // A leading percent sign looks for the rest of the pattern anywhere.
  lemma {:induction false} PercentFinds(rest: string, s: string)
    ensures Matches("%" + rest, s) <==> exists n | 0 <= n <= |s| :: Matches(rest, s[n..])
  {
    var pattern := "%" + rest;
    assert pattern[1..] == rest && s[0..] == s;
    if s == "" {
      assert forall n | 0 <= n <= |s| :: s[n..] == s;
    } else {
      PercentFinds(rest, s[1..]);
      assert forall n | 0 <= n < |s| :: s[1..][n..] == s[n + 1..];
      if n :| 0 <= n <= |s| && Matches(rest, s[n..]) {
        if n > 0 { assert s[1..][n - 1..] == s[n..]; }
      }
    }
  }

  // The case of what is matched does not matter.
  lemma {:induction false} MatchesLowered(pattern: string, s: string)
    ensures Matches(pattern, LowerAll(s)) <==> Matches(pattern, s)
    decreases |pattern|, |s|
  {
    if s != "" {
      assert LowerAll(s)[1..] == LowerAll(s[1..]);
      if pattern != "" {
        MatchesLowered(pattern[1..], s);
        MatchesLowered(pattern, s[1..]);
        MatchesLowered(pattern[1..], s[1..]);
      }
    }
  }

  // ---------- Two patterns at once ----------

  predicate AllPercent(pattern: string) {
    forall i | 0 <= i < |pattern| :: pattern[i] == '%'
  }

  // Some string matches both patterns: a `%` of either one lets the other go ahead.
  predicate Meet(a: string, b: string)
    decreases |a| + |b|
  {
    if a == "" then AllPercent(b)
    else if b == "" then AllPercent(a)
    else if a[0] == '%' || b[0] == '%' then Meet(a[1..], b) || Meet(a, b[1..])
    else (MatchesChar(a[0], b[0]) || b[0] == '_') && Meet(a[1..], b[1..])
  }

  lemma {:induction false} MatchesEmpty(pattern: string)
    ensures Matches(pattern, "") <==> AllPercent(pattern)
  {
    if pattern != "" {
      MatchesEmpty(pattern[1..]);
      assert AllPercent(pattern) <==> pattern[0] == '%' && AllPercent(pattern[1..]) by {
        assert forall i | 1 <= i < |pattern| :: pattern[i] == pattern[1..][i - 1];
      }
    }
  }

  // One character more, in front.
  lemma MatchesOneMore(pattern: string, c: char, s: string)
    ensures pattern != "" && pattern[0] == '%' && Matches(pattern, s) ==> Matches(pattern, [c] + s)
    ensures pattern != "" && pattern[0] != '%' && MatchesChar(pattern[0], c) && Matches(pattern[1..], s) ==> Matches(pattern, [c] + s)
  {
    assert ([c] + s)[1..] == s;
  }

  lemma {:induction false} MeetHasWitness(a: string, b: string) returns (s: string)
    requires Meet(a, b)
    ensures Matches(a, s) && Matches(b, s)
    decreases |a| + |b|
  {
    if a == "" || b == "" {
      s := "";
      MatchesEmpty(a);
      MatchesEmpty(b);
    } else if a[0] == '%' || b[0] == '%' {
      if Meet(a[1..], b) {
        s := MeetHasWitness(a[1..], b);
        if a[0] != '%' {
          MatchesOneMore(a, a[0], s);
          MatchesOneMore(b, a[0], s);
          s := [a[0]] + s;
        }
      } else {
        s := MeetHasWitness(a, b[1..]);
        if b[0] != '%' {
          MatchesOneMore(a, b[0], s);
          MatchesOneMore(b, b[0], s);
          s := [b[0]] + s;
        }
      }
    } else {
      s := MeetHasWitness(a[1..], b[1..]);
      var c := if a[0] == '_' then b[0] else a[0];
      MatchesOneMore(a, c, s);
      MatchesOneMore(b, c, s);
      s := [c] + s;
    }
  }

  lemma {:induction false} BothMatchedMeet(a: string, b: string, s: string)
    requires Matches(a, s) && Matches(b, s)
    ensures Meet(a, b)
    decreases |a| + |b|, |s|
  {
    if a == "" || b == "" {
      MatchesEmpty(a);
      MatchesEmpty(b);
    } else if a[0] == '%' {
      if Matches(a[1..], s) {
        BothMatchedMeet(a[1..], b, s);
      } else if b[0] == '%' {
        if Matches(b[1..], s) { BothMatchedMeet(a, b[1..], s); } else { BothMatchedMeet(a, b, s[1..]); }
      } else {
        BothMatchedMeet(a, b[1..], s[1..]);
      }
    } else if b[0] == '%' {
      if Matches(b[1..], s) { BothMatchedMeet(a, b[1..], s); } else { BothMatchedMeet(a[1..], b, s[1..]); }
    } else {
      BothMatchedMeet(a[1..], b[1..], s[1..]);
    }
  }

  predicate BothMatch(a: string, b: string, s: string) {
    Matches(a, s) && Matches(b, s)
  }

  lemma MeetIff(a: string, b: string)
    ensures Meet(a, b) <==> exists s :: BothMatch(a, b, s)
  {
    if Meet(a, b) {
      var s := MeetHasWitness(a, b);
      assert BothMatch(a, b, s);
    } else if s :| BothMatch(a, b, s) {
      BothMatchedMeet(a, b, s);
    }
  }
}

/** Strings: joining, splitting, replacing. */
module Strings {

  // ---------- Joining ----------

  function Join(parts: seq<string>, sep: string): string {
    if parts == [] then ""
    else if |parts| == 1 then parts[0]
    else parts[0] + sep + Join(parts[1..], sep)
  }

  // ---------- Order ----------

  // Lexicographic, strictly.
  predicate Less(a: string, b: string) {
    b != "" && (a == "" || a[0] < b[0] || (a[0] == b[0] && Less(a[1..], b[1..])))
  }

  lemma {:induction false} LessIsStrict(a: string, b: string)
    ensures !(Less(a, b) && Less(b, a))
    ensures a == b ==> !Less(a, b)
  {
    if a != "" && b != "" { LessIsStrict(a[1..], b[1..]); }
  }

  lemma {:induction false} LessIsTotal(a: string, b: string)
    ensures a == b || Less(a, b) || Less(b, a)
  {
    if a != "" && b != "" {
      LessIsTotal(a[1..], b[1..]);
      assert a == [a[0]] + a[1..] && b == [b[0]] + b[1..];
    }
  }

  lemma {:induction false} LessIsTransitive(a: string, b: string, c: string)
    requires Less(a, b) && Less(b, c)
    ensures Less(a, c)
  {
    if a != "" && a[0] == b[0] == c[0] { LessIsTransitive(a[1..], b[1..], c[1..]); }
  }

  // ---------- Prefixes ----------

  lemma PrefixesComparable(p: string, q: string, s: string)
    requires p <= s && q <= s
    ensures p <= q || q <= p
  {
    if |p| <= |q| { assert p == s[..|p|] == q[..|p|]; } else { assert q == s[..|q|] == p[..|q|]; }
  }

  // ---------- Splitting at one character ----------

  function IndexOf(s: string, c: char): (i: nat)
    ensures i <= |s| && c !in s[..i] && (i < |s| ==> s[i] == c)
  {
    if s == "" || s[0] == c then 0
    else
      assert forall i | 0 <= i <= |s[1..]| :: s[..i + 1] == [s[0]] + s[1..][..i];
      1 + IndexOf(s[1..], c)
  }

  function Split(s: string, c: char): seq<string>
    decreases |s|
  {
    var i := IndexOf(s, c);
    if i == |s| then [s] else [s[..i]] + Split(s[i + 1..], c)
  }

  lemma IndexOfUnique(s: string, c: char, i: nat)
    requires i <= |s| && c !in s[..i] && (i < |s| ==> s[i] == c)
    ensures IndexOf(s, c) == i
  {
    var j := IndexOf(s, c);
    assert forall k | 0 <= k < i :: s[k] == s[..i][k];
    assert forall k | 0 <= k < j :: s[k] == s[..j][k];
  }

  lemma {:induction false} SplitJoin(parts: seq<string>, c: char)
    requires parts != [] && forall i | 0 <= i < |parts| :: c !in parts[i]
    ensures Split(Join(parts, [c]), c) == parts
  {
    var s := Join(parts, [c]);
    if |parts| == 1 {
      IndexOfUnique(s, c, |s|);
    } else {
      assert s[..|parts[0]|] == parts[0];
      IndexOfUnique(s, c, |parts[0]|);
      assert s[|parts[0]| + 1..] == Join(parts[1..], [c]);
      SplitJoin(parts[1..], c);
    }
  }

  // ---------- Splitting at white space ----------

  predicate IsSpace(c: char) {
    c == ' ' || c == '\t' || c == '\n' || c == '\r' || c == '\U{0C}'
  }

  predicate NoSpace(s: string) {
    forall i | 0 <= i < |s| :: !IsSpace(s[i])
  }

  lemma NoSpaceConcat(a: string, b: string)
    ensures NoSpace(a + b) <==> NoSpace(a) && NoSpace(b)
  {
    if NoSpace(a + b) {
      assert forall i | 0 <= i < |a| :: a[i] == (a + b)[i];
      assert forall i | 0 <= i < |b| :: b[i] == (a + b)[|a| + i];
    }
  }

  predicate IsWord(s: string) {
    s != "" && NoSpace(s)
  }

  predicate AllWords(ts: seq<string>) {
    forall i | 0 <= i < |ts| :: IsWord(ts[i])
  }

  function WordLength(s: string): (n: nat)
    ensures n <= |s| && (s != "" && !IsSpace(s[0]) ==> n > 0)
  {
    if s == "" || IsSpace(s[0]) then 0 else 1 + WordLength(s[1..])
  }

  function SplitWhitespace(s: string): seq<string>
    decreases |s|
  {
    if s == "" then []
    else if IsSpace(s[0]) then SplitWhitespace(s[1..])
    else [s[..WordLength(s)]] + SplitWhitespace(s[WordLength(s)..])
  }

  lemma {:induction false} WordLengthOf(word: string, rest: string)
    requires NoSpace(word)
    requires rest != "" ==> IsSpace(rest[0])
    ensures WordLength(word + rest) == |word|
  {
    if word == "" {
      assert word + rest == rest;
    } else {
      assert (word + rest)[1..] == word[1..] + rest;
      WordLengthOf(word[1..], rest);
    }
  }

  // Splitting undoes joining, for words.
  lemma {:induction false} SplitJoinWords(ts: seq<string>)
    requires AllWords(ts)
    ensures SplitWhitespace(Join(ts, " ")) == ts
  {
    if ts != [] {
      var s := Join(ts, " ");
      var rest := if |ts| == 1 then "" else " " + Join(ts[1..], " ");
      assert s == ts[0] + rest && s[0] == ts[0][0];
      WordLengthOf(ts[0], rest);
      assert s[..|ts[0]|] == ts[0] && s[|ts[0]|..] == rest;
      SplitJoinWords(ts[1..]);
      if |ts| > 1 { assert rest[1..] == Join(ts[1..], " "); }
    }
  }

  // ---------- White space inside ----------

  // Neither empty nor beginning or ending with white space.
  predicate Solid(s: string) {
    s != "" && !IsSpace(s[0]) && !IsSpace(s[|s| - 1])
  }

  // All white space is single blanks.
  predicate SingleSpaced(s: string) {
    forall i | 0 <= i < |s| && IsSpace(s[i]) :: s[i] == ' ' && (i + 1 < |s| ==> !IsSpace(s[i + 1]))
  }

  function Chain<T>(parts: seq<seq<T>>): seq<T> {
    if parts == [] then [] else parts[0] + Chain(parts[1..])
  }

  function WordsOf(ts: seq<string>): seq<seq<string>> {
    seq(|ts|, i requires 0 <= i < |ts| => SplitWhitespace(ts[i]))
  }

  lemma {:induction false} WordLengthIsWord(s: string)
    ensures NoSpace(s[..WordLength(s)]) && (WordLength(s) < |s| ==> IsSpace(s[WordLength(s)]))
  {
    if s != "" && !IsSpace(s[0]) {
      WordLengthIsWord(s[1..]);
      var n := WordLength(s);
      assert s[..n] == [s[0]] + s[1..][..n - 1];
      NoSpaceConcat([s[0]], s[1..][..n - 1]);
    }
  }

  lemma {:induction false} SplitGivesWords(s: string)
    ensures AllWords(SplitWhitespace(s))
    ensures Solid(s) ==> SplitWhitespace(s) != []
    decreases |s|
  {
    if s != "" {
      if IsSpace(s[0]) {
        SplitGivesWords(s[1..]);
      } else {
        WordLengthIsWord(s);
        SplitGivesWords(s[WordLength(s)..]);
      }
    }
  }

  lemma {:induction false} WordLengthStops(a: string, b: string)
    ensures WordLength(a + " " + b) == WordLength(a)
  {
    assert a + " " + b == a + (" " + b);
    if a == "" {
      assert (a + " " + b)[0] == ' ';
    } else if !IsSpace(a[0]) {
      WordLengthStops(a[1..], b);
      assert (a + " " + b)[1..] == a[1..] + " " + b;
    }
  }

  // A blank separates words, whatever is on its two sides.
  lemma {:induction false} SplitAtBlank(a: string, b: string)
    ensures SplitWhitespace(a + " " + b) == SplitWhitespace(a) + SplitWhitespace(b)
    decreases |a|
  {
    var s := a + " " + b;
    if a == "" {
      assert s[1..] == b;
    } else if IsSpace(a[0]) {
      assert s[1..] == a[1..] + " " + b;
      SplitAtBlank(a[1..], b);
    } else {
      var n := WordLength(a);
      WordLengthStops(a, b);
      assert s[..n] == a[..n] && s[n..] == a[n..] + " " + b;
      SplitAtBlank(a[n..], b);
    }
  }

  lemma {:induction false} SplitOfJoin(ts: seq<string>)
    ensures SplitWhitespace(Join(ts, " ")) == Chain(WordsOf(ts))
  {
    if |ts| == 1 {
      assert WordsOf(ts) == [SplitWhitespace(ts[0])];
    } else if ts != [] {
      SplitOfJoin(ts[1..]);
      SplitAtBlank(ts[0], Join(ts[1..], " "));
      assert WordsOf(ts)[1..] == WordsOf(ts[1..]);
    }
  }

  lemma {:induction false} JoinConcat(a: seq<string>, b: seq<string>)
    requires a != [] && b != []
    ensures Join(a + b, " ") == Join(a, " ") + " " + Join(b, " ")
  {
    assert (a + b)[1..] == a[1..] + b;
    if |a| > 1 { JoinConcat(a[1..], b); }
  }

  // Joining all the words is joining the parts, each joined.
  lemma {:induction false} JoinChain(parts: seq<seq<string>>, joined: seq<string>)
    requires |joined| == |parts| && forall i | 0 <= i < |parts| :: parts[i] != [] && joined[i] == Join(parts[i], " ")
    ensures Join(Chain(parts), " ") == Join(joined, " ")
    ensures parts != [] ==> Chain(parts) != []
  {
    if |parts| == 1 {
      assert Chain(parts) == parts[0];
    } else if parts != [] {
      JoinChain(parts[1..], joined[1..]);
      JoinConcat(parts[0], Chain(parts[1..]));
    }
  }

  // Words that come in parts of the same sizes can be told apart.
  lemma {:induction false} ChainInjective<T>(a: seq<seq<T>>, b: seq<seq<T>>)
    requires |a| == |b| && (forall i | 0 <= i < |a| :: |a[i]| == |b[i]|) && Chain(a) == Chain(b)
    ensures a == b
  {
    if a != [] {
      assert a[0] == Chain(a)[..|a[0]|] == b[0];
      assert Chain(a[1..]) == Chain(a)[|a[0]|..] == Chain(b[1..]);
      ChainInjective(a[1..], b[1..]);
    }
  }

  // ---------- One blank between words ----------

  lemma {:induction false} RejoinedIsShorter(s: string)
    ensures |Join(SplitWhitespace(s), " ")| <= |s|
    decreases |s|
  {
    if s != "" {
      if IsSpace(s[0]) {
        RejoinedIsShorter(s[1..]);
      } else {
        var n := WordLength(s);
        WordLengthIsWord(s);
        if n < |s| {
          RejoinedIsShorter(s[n + 1..]);
          assert s[n..][1..] == s[n + 1..];
          assert SplitWhitespace(s) == [s[..n]] + SplitWhitespace(s[n + 1..]);
        } else {
          assert SplitWhitespace(s) == [s[..n]] + SplitWhitespace("");
        }
      }
    }
  }

  // Splitting and joining gives a string back exactly if its white space is single blanks.
  lemma {:induction false} RejoinedIff(s: string)
    requires Solid(s)
    ensures Join(SplitWhitespace(s), " ") == s <==> SingleSpaced(s)
    decreases |s|
  {
    var n := WordLength(s);
    WordLengthIsWord(s);
    if n == |s| {
      assert s[..n] == s && s[n..] == "";
      assert SplitWhitespace(s) == [s] + SplitWhitespace("");
    } else {
      assert forall i | 0 <= i < n :: s[i] == s[..n][i];
      var rest := s[n + 1..];
      assert n + 1 < |s|;
      assert s[n..][1..] == rest && s == s[..n] + [s[n]] + rest;
      assert SplitWhitespace(s) == [s[..n]] + SplitWhitespace(rest);
      if IsSpace(rest[0]) {
        assert !SingleSpaced(s);
        RejoinedIsShorter(rest[1..]);
        assert SplitWhitespace(rest) == SplitWhitespace(rest[1..]);
      } else {
        RejoinedIff(rest);
        SplitGivesWords(rest);
        assert Join(SplitWhitespace(s), " ") == s[..n] + " " + Join(SplitWhitespace(rest), " ");
        RejoinedStep(s, n, rest);
      }
    }
  }

  lemma RejoinedStep(s: string, n: nat, rest: string)
    requires n + 1 < |s| && NoSpace(s[..n]) && IsSpace(s[n]) && rest == s[n + 1..] && !IsSpace(rest[0])
    ensures SingleSpaced(s) <==> s[n] == ' ' && SingleSpaced(rest)
  {
    assert forall i | 0 <= i < n :: s[i] == s[..n][i];
    assert forall i | 0 <= i < |rest| :: rest[i] == s[n + 1 + i];
    if s[n] == ' ' && SingleSpaced(rest) {
      forall i | 0 <= i < |s| && IsSpace(s[i]) ensures s[i] == ' ' && (i + 1 < |s| ==> !IsSpace(s[i + 1])) {
        if i > n { assert rest[i - n - 1] == s[i]; }
        if i > n && i + 1 < |s| { assert rest[i - n] == s[i + 1]; }
      }
    }
  }

  lemma {:induction false} JoinShorter(a: seq<string>, b: seq<string>)
    requires |a| == |b| && forall i | 0 <= i < |a| :: |a[i]| <= |b[i]|
    ensures |Join(a, " ")| <= |Join(b, " ")|
  {
    if |a| > 1 { JoinShorter(a[1..], b[1..]); }
  }

  // Where no part is longer than its counterpart, joining is injective.
  lemma {:induction false} JoinInjective(a: seq<string>, b: seq<string>)
    requires |a| == |b| && (forall i | 0 <= i < |a| :: |a[i]| <= |b[i]|) && Join(a, " ") == Join(b, " ")
    ensures a == b
  {
    if |a| > 1 {
      JoinShorter(a[1..], b[1..]);
      var s := Join(a, " ");
      assert s == a[0] + " " + Join(a[1..], " ") == b[0] + " " + Join(b[1..], " ");
      assert |a[0]| == |b[0]|;
      assert a[0] == s[..|a[0]|] == b[0];
      assert Join(a[1..], " ") == s[|a[0]| + 1..] == Join(b[1..], " ");
      JoinInjective(a[1..], b[1..]);
    }
  }

  // ---------- Replacing every occurrence ----------

  function Replace(s: string, from: string, to: string): string
    requires from != ""
    decreases |s|
  {
    if s == "" then ""
    else if from <= s then to + Replace(s[|from|..], from, to)
    else [s[0]] + Replace(s[1..], from, to)
  }

  lemma {:induction false} ReplaceAbsent(s: string, from: string, to: string, c: char)
    requires from != "" && c in from && c !in s
    ensures Replace(s, from, to) == s
  {
    if s != "" {
      if from <= s {
        assert false;
      }
      ReplaceAbsent(s[1..], from, to, c);
    }
  }

  // Replacing by something longer never shortens, and lengthens wherever there is something
  // to replace.
  lemma {:induction false} ReplaceLengthens(s: string, from: string, to: string, i: nat)
    requires from != "" && |from| < |to| && i <= |s|
    ensures |s| <= |Replace(s, from, to)|
    ensures from <= s[i..] ==> |s| < |Replace(s, from, to)|
    decreases |s|
  {
    if s != "" {
      if from <= s {
        ReplaceLengthens(s[|from|..], from, to, 0);
      } else if i == 0 {
        ReplaceLengthens(s[1..], from, to, 0);
      } else {
        assert s[1..][i - 1..] == s[i..];
        ReplaceLengthens(s[1..], from, to, i - 1);
      }
    }
  }

  lemma {:induction false} ReplaceInShorter(s: string, from: string, to: string)
    requires |s| < |from|
    ensures Replace(s, from, to) == s
  {
    if s != "" { ReplaceInShorter(s[1..], from, to); }
  }

  lemma {:induction false} ReplaceNoSpace(s: string, from: string, to: string)
    requires from != "" && NoSpace(s) && NoSpace(to)
    ensures NoSpace(Replace(s, from, to))
    decreases |s|
  {
    if s != "" {
      if from <= s {
        assert s == s[..|from|] + s[|from|..];
        NoSpaceConcat(s[..|from|], s[|from|..]);
        ReplaceNoSpace(s[|from|..], from, to);
        NoSpaceConcat(to, Replace(s[|from|..], from, to));
      } else {
        assert s == [s[0]] + s[1..];
        NoSpaceConcat([s[0]], s[1..]);
        ReplaceNoSpace(s[1..], from, to);
        NoSpaceConcat([s[0]], Replace(s[1..], from, to));
      }
    }
  }
}

/** Splitting a submitted value into its sub-values, with the semantics of
    Apache Commons Lang 2 `StringUtils.split(String, String)` called with a
    one-character separator set: the tokens are the maximal runs of
    non-separator characters, in order. Empty tokens are never produced, so
    a run of adjacent separators acts as one and leading or trailing
    separators are ignored. */
module StringSplit {

  /** A well-formed token: non-empty and free of the separator. */
  predicate IsToken(t: string, sep: char) {
    t != [] && sep !in t
  }

  /** The token being read, if it has at least one character. */
  function Flush(cur: string): (tokens: seq<string>)
    ensures |tokens| <= 1
    ensures tokens == [] <==> cur == []
    ensures forall t :: t in tokens ==> t == cur
  {
    if cur == [] then [] else [cur]
  }

  /** The tokens of `cur + s`, where `cur` holds the characters already read
      of the token in progress (the scan of `StringUtils.split`). */
  function SplitFrom(s: string, sep: char, cur: string): (tokens: seq<string>)
    requires sep !in cur
    ensures forall t :: t in tokens ==> IsToken(t, sep)
    decreases |s|
  {
    if s == [] then Flush(cur)
    else if s[0] == sep then Flush(cur) + SplitFrom(s[1..], sep, [])
    else SplitFrom(s[1..], sep, cur + [s[0]])
  }

  /** `StringUtils.split(s, "" + sep)` for a non-null `s`. */
  function Split(s: string, sep: char): (tokens: seq<string>)
    ensures forall t :: t in tokens ==> IsToken(t, sep)
  {
    SplitFrom(s, sep, [])
  }

  /** The tokens written one after another, each pair separated by `sep`
      (the form in which a multi-select form field delivers its values). */
  function Join(tokens: seq<string>, sep: char): string
  {
    if tokens == [] then []
    else if |tokens| == 1 then tokens[0]
    else tokens[0] + [sep] + Join(tokens[1..], sep)
  }

  /** All strings of a sequence, concatenated. */
  function Concat(tokens: seq<string>): string
  {
    if tokens == [] then [] else tokens[0] + Concat(tokens[1..])
  }

  /** `s` with every separator removed. */
  function Without(s: string, sep: char): string
  {
    if s == [] then []
    else (if s[0] == sep then [] else [s[0]]) + Without(s[1..], sep)
  }

  lemma {:induction false} SplitFromSeparated(a: string, sep: char, cur: string, b: string)
    requires sep !in cur
    ensures SplitFrom(a + [sep] + b, sep, cur) == SplitFrom(a, sep, cur) + SplitFrom(b, sep, [])
    decreases |a|
  {
    if a == [] {
      assert a + [sep] + b == [sep] + b;
      assert ([sep] + b)[1..] == b;
    } else {
      assert (a + [sep] + b)[1..] == a[1..] + [sep] + b;
      if a[0] == sep {
        SplitFromSeparated(a[1..], sep, [], b);
      } else {
        SplitFromSeparated(a[1..], sep, cur + [a[0]], b);
      }
    }
  }

  /** A separator cuts the string cleanly in two: the tokens of `a + sep + b`
      are those of `a` followed by those of `b`. */
  lemma SplitSeparated(a: string, sep: char, b: string)
    ensures Split(a + [sep] + b, sep) == Split(a, sep) + Split(b, sep)
  {
    SplitFromSeparated(a, sep, [], b);
  }

  lemma {:induction false} SplitFromEmptyIff(s: string, sep: char, cur: string)
    requires sep !in cur
    ensures SplitFrom(s, sep, cur) == [] <==> cur == [] && forall i :: 0 <= i < |s| ==> s[i] == sep
    decreases |s|
  {
    if s != [] {
      SplitFromEmptyIff(s[1..], sep, if s[0] == sep then [] else cur + [s[0]]);
      assert forall i :: 1 <= i < |s| ==> s[i] == s[1..][i - 1];
    }
  }

  /** A string splits into no tokens exactly when it consists of separators
      only; in particular the empty string splits into no tokens. */
  lemma SplitEmptyIff(s: string, sep: char)
    ensures Split(s, sep) == [] <==> forall i :: 0 <= i < |s| ==> s[i] == sep
  {
    SplitFromEmptyIff(s, sep, []);
  }

  lemma {:induction false} SplitFromToken(t: string, sep: char, cur: string)
    requires sep !in cur && sep !in t && cur + t != []
    ensures SplitFrom(t, sep, cur) == [cur + t]
    decreases |t|
  {
    if t == [] {
      assert cur + t == cur;
    } else {
      assert cur + t == (cur + [t[0]]) + t[1..];
      SplitFromToken(t[1..], sep, cur + [t[0]]);
    }
  }

  /** A single well-formed token splits into itself. */
  lemma SplitToken(t: string, sep: char)
    requires IsToken(t, sep)
    ensures Split(t, sep) == [t]
  {
    SplitFromToken(t, sep, []);
    assert [] + t == t;
  }

  /** Round trip: joining well-formed tokens with the separator and splitting
      the result gives the same tokens back, in the same order. */
  lemma {:induction false} SplitJoin(tokens: seq<string>, sep: char)
    requires forall t :: t in tokens ==> IsToken(t, sep)
    ensures Split(Join(tokens, sep), sep) == tokens
  {
    if tokens == [] {
    } else if |tokens| == 1 {
      SplitToken(tokens[0], sep);
    } else {
      SplitSeparated(tokens[0], sep, Join(tokens[1..], sep));
      SplitToken(tokens[0], sep);
      SplitJoin(tokens[1..], sep);
    }
  }

  lemma {:induction false} ConcatAppend(a: seq<string>, b: seq<string>)
    ensures Concat(a + b) == Concat(a) + Concat(b)
  {
    if a == [] {
      assert a + b == b;
    } else {
      assert (a + b)[1..] == a[1..] + b;
      ConcatAppend(a[1..], b);
    }
  }

  lemma {:induction false} SplitFromContent(s: string, sep: char, cur: string)
    requires sep !in cur
    ensures Concat(SplitFrom(s, sep, cur)) == cur + Without(s, sep)
    decreases |s|
  {
    if s == [] {
    } else if s[0] == sep {
      ConcatAppend(Flush(cur), SplitFrom(s[1..], sep, []));
      SplitFromContent(s[1..], sep, []);
    } else {
      SplitFromContent(s[1..], sep, cur + [s[0]]);
    }
  }

  /** Splitting loses and adds nothing but separators: the tokens, written
      one after another, are the input with its separators removed. */
  lemma SplitContent(s: string, sep: char)
    ensures Concat(Split(s, sep)) == Without(s, sep)
  {
    SplitFromContent(s, sep, []);
  }
}

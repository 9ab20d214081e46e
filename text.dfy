/**
 The string operations the request handler relies on, with the semantics of
 the JavaScript built-ins it calls: `String.prototype.trimEnd`,
 `String.prototype.split` with a one-character separator,
 `Array.prototype.join`, and `replace(/"/g, '')`.
 */
module Text {

  /** The characters `trimEnd` removes: ECMAScript WhiteSpace and LineTerminator. */
  predicate IsWhitespace(c: char) {
    || c == '\t' || c == '\U{B}' || c == '\U{C}' || c == ' ' || c == '\U{A0}' || c == '\U{FEFF}'
    || c == '\n' || c == '\r' || c == '\U{2028}' || c == '\U{2029}'
    || c == '\U{1680}' || ('\U{2000}' <= c <= '\U{200A}') || c == '\U{202F}' || c == '\U{205F}'
    || c == '\U{3000}'
  }

  /** `s.trimEnd()`: the longest prefix of `s` that does not end in whitespace. */
  function TrimEnd(s: string): (r: string)
    ensures |r| <= |s| && r == s[..|r|]
    ensures r == [] || !IsWhitespace(r[|r| - 1])
    ensures forall i :: |r| <= i < |s| ==> IsWhitespace(s[i])
    decreases |s|
  {
    if s != [] && IsWhitespace(s[|s| - 1]) then TrimEnd(s[..|s| - 1]) else s
  }

  /** The three properties in TrimEnd's contract determine its result. */
  lemma TrimEndUnique(s: string, r: string)
    requires |r| <= |s| && r == s[..|r|]
    requires r == [] || !IsWhitespace(r[|r| - 1])
    requires forall i :: |r| <= i < |s| ==> IsWhitespace(s[i])
    ensures TrimEnd(s) == r
  {
  }

  /** Appending whitespace to a string that does not end in whitespace is undone by `trimEnd`. */
  lemma TrimEndOfPadded(s: string, tail: string)
    requires s == [] || !IsWhitespace(s[|s| - 1])
    requires forall i :: 0 <= i < |tail| ==> IsWhitespace(tail[i])
    ensures TrimEnd(s + tail) == s
  {
    var st := s + tail;
    assert st[..|s|] == s;
    forall i | |s| <= i < |st| ensures IsWhitespace(st[i]) {
      assert st[i] == tail[i - |s|];
    }
    TrimEndUnique(st, s);
  }

  /** `parts.join(sep)`: the parts with `sep` between neighbours. */
  function Join(parts: seq<string>, sep: string): string
    decreases |parts|
  {
    if |parts| == 0 then []
    else if |parts| == 1 then parts[0]
    else parts[0] + sep + Join(parts[1..], sep)
  }

  /** Joining, then prepending a character to the whole, is prepending it to the first part. */
  lemma JoinPrepend(c: char, parts: seq<string>, sep: string)
    requires |parts| >= 1
    ensures Join([[c] + parts[0]] + parts[1..], sep) == [c] + Join(parts, sep)
  {
    var q := [[c] + parts[0]] + parts[1..];
    assert q[1..] == parts[1..];
  }

  /** `s.split(sep)` for a one-character separator: every maximal run between separators. */
  function Split(s: string, sep: char): (r: seq<string>)
    ensures |r| >= 1
    ensures forall i :: 0 <= i < |r| ==> sep !in r[i]
    ensures Join(r, [sep]) == s
    decreases |s|
  {
    if s == [] then [[]]
    else
      var rest := Split(s[1..], sep);
      if s[0] == sep then
        assert ([[]] + rest)[1..] == rest;
        [[]] + rest
      else
        JoinPrepend(s[0], rest, [sep]);
        [[s[0]] + rest[0]] + rest[1..]
  }

  /** A string without the separator splits into itself. */
  lemma {:induction false} SplitWithoutSeparator(p: string, sep: char)
    requires sep !in p
    ensures Split(p, sep) == [p]
    decreases |p|
  {
    if p != [] {
      SplitWithoutSeparator(p[1..], sep);
      assert [p[0]] + p[1..] == p;
    }
  }

  /** A separator-free prefix followed by the separator becomes one part of its own. */
  lemma {:induction false} SplitAfterPart(p: string, sep: char, s: string)
    requires sep !in p
    ensures Split(p + [sep] + s, sep) == [p] + Split(s, sep)
    decreases |p|
  {
    var w := p + [sep] + s;
    if p == [] {
      assert w[0] == sep && w[1..] == s;
    } else {
      assert w[0] == p[0] && w[1..] == p[1..] + [sep] + s;
      SplitAfterPart(p[1..], sep, s);
      assert [p[0]] + p[1..] == p;
    }
  }

  /** Splitting undoes joining, when no part contains the separator. */
  lemma {:induction false} SplitOfJoin(parts: seq<string>, sep: char)
    requires |parts| >= 1
    requires forall i :: 0 <= i < |parts| ==> sep !in parts[i]
    ensures Split(Join(parts, [sep]), sep) == parts
    decreases |parts|
  {
    if |parts| == 1 {
      SplitWithoutSeparator(parts[0], sep);
    } else {
      SplitOfJoin(parts[1..], sep);
      SplitAfterPart(parts[0], sep, Join(parts[1..], [sep]));
      assert [parts[0]] + parts[1..] == parts;
    }
  }

  /** The last part of a join is a suffix of it, preceded by the separator when there are several parts. */
  lemma {:induction false} JoinLast(parts: seq<string>, sep: string)
    requires |parts| >= 1
    ensures Join(parts, sep)
         == (if |parts| == 1 then [] else Join(parts[..|parts| - 1], sep) + sep) + parts[|parts| - 1]
    decreases |parts|
  {
    if |parts| > 2 {
      JoinLast(parts[1..], sep);
      assert parts[1..][..|parts| - 2] == parts[..|parts| - 1][1..];
    } else if |parts| == 2 {
      assert parts[..1] == [parts[0]];
    }
  }

  /** `s.replace(/"/g, '')`: `s` with every double quote removed. */
  function StripQuotes(s: string): (r: string)
    ensures '"' !in r
    ensures multiset(r) == multiset(s)['"' := 0]
    ensures '"' !in s ==> r == s
    decreases |s|
  {
    if s == [] then []
    else
      assert s == [s[0]] + s[1..];
      (if s[0] == '"' then [] else [s[0]]) + StripQuotes(s[1..])
  }

  /** Quote removal distributes over concatenation, so it keeps the order of what remains. */
  lemma {:induction false} StripQuotesAppend(a: string, b: string)
    ensures StripQuotes(a + b) == StripQuotes(a) + StripQuotes(b)
    decreases |a|
  {
    if a != [] {
      var ab := a + b;
      assert ab[0] == a[0] && ab[1..] == a[1..] + b;
      StripQuotesAppend(a[1..], b);
      var h := if a[0] == '"' then [] else [a[0]];
      calc {
        StripQuotes(ab);
        h + StripQuotes(a[1..] + b);
        h + (StripQuotes(a[1..]) + StripQuotes(b));
        (h + StripQuotes(a[1..])) + StripQuotes(b);
        StripQuotes(a) + StripQuotes(b);
      }
    } else {
      assert a + b == b;
    }
  }

  /** A quoted text without inner quotes loses exactly its two quotes. */
  lemma StripQuotesOfQuoted(t: string)
    requires '"' !in t
    ensures StripQuotes("\"" + t + "\"") == t
  {
    StripQuotesAppend("\"" + t, "\"");
    StripQuotesAppend("\"", t);
  }

  /** Joined lists whose parts agree once unquoted agree once unquoted. */
  lemma {:induction false} StripQuotesJoinCongruent(ps: seq<string>, qs: seq<string>, sep: string)
    requires |ps| == |qs|
    requires forall i :: 0 <= i < |ps| ==> StripQuotes(ps[i]) == StripQuotes(qs[i])
    ensures StripQuotes(Join(ps, sep)) == StripQuotes(Join(qs, sep))
    decreases |ps|
  {
    if |ps| >= 2 {
      StripQuotesJoinCongruent(ps[1..], qs[1..], sep);
      StripQuotesAppend(ps[0] + sep, Join(ps[1..], sep));
      StripQuotesAppend(ps[0], sep);
      StripQuotesAppend(qs[0] + sep, Join(qs[1..], sep));
      StripQuotesAppend(qs[0], sep);
    }
  }
}

/**
 The four reply forms of the Redis Serialization Protocol (RESP2) that the
 server writes, their encoding as text, and an independent decoder used to
 state what the encoding means: every well-formed reply decodes back to
 itself, and every decodable text is the encoding of what it decodes to.
 */
module Resp {

  datatype Option<T> = None | Some(value: T)

  /** A logical reply: `+text`, `$len payload`, the null bulk string `$-1`, or `-ERR message`. */
  datatype Reply = Status(text: string) | Bulk(payload: string) | Nil | Error(message: string)

  const CRLF: string := "\r\n"

  predicate IsDigit(c: char) {
    '0' <= c <= '9'
  }

  function DigitChar(d: nat): (c: char)
    requires d < 10
    ensures IsDigit(c) && c as int - '0' as int == d
  {
    (d + '0' as int) as char
  }

  function DigitValue(c: char): (d: nat)
    requires IsDigit(c)
    ensures d < 10 && DigitChar(d) == c
  {
    c as int - '0' as int
  }

  predicate AllDigits(s: string) {
    forall i :: 0 <= i < |s| ==> IsDigit(s[i])
  }

  /** A decimal numeral as JavaScript prints a non-negative integer: digits, no leading zero. */
  predicate IsCanonicalDecimal(s: string) {
    |s| >= 1 && AllDigits(s) && (s[0] == '0' ==> |s| == 1)
  }

  /** The decimal numeral of `n`, as produced by `"$" + n`. */
  function NatToString(n: nat): (s: string)
    ensures IsCanonicalDecimal(s)
    ensures s[0] == '0' <==> n == 0
    decreases n
  {
    if n < 10 then [DigitChar(n)] else NatToString(n / 10) + [DigitChar(n % 10)]
  }

  /** The value of a string of decimal digits. */
  function ParseNat(s: string): nat
    requires AllDigits(s)
    decreases |s|
  {
    if s == [] then 0 else 10 * ParseNat(s[..|s| - 1]) + DigitValue(s[|s| - 1])
  }

  lemma {:induction false} ParseNatOfNatToString(n: nat)
    ensures ParseNat(NatToString(n)) == n
    decreases n
  {
    if n >= 10 {
      ParseNatOfNatToString(n / 10);
      var s := NatToString(n);
      assert s[..|s| - 1] == NatToString(n / 10);
    }
  }

  /** A numeral whose first digit is not zero denotes a positive number. */
  lemma {:induction false} ParseNatPositive(s: string)
    requires |s| >= 1 && AllDigits(s) && s[0] != '0'
    ensures ParseNat(s) >= 1
    decreases |s|
  {
    if |s| > 1 {
      ParseNatPositive(s[..|s| - 1]);
    }
  }

  lemma {:induction false} NatToStringOfParseNat(s: string)
    requires IsCanonicalDecimal(s)
    ensures NatToString(ParseNat(s)) == s
    decreases |s|
  {
    if |s| > 1 {
      var p := s[..|s| - 1];
      NatToStringOfParseNat(p);
      ParseNatPositive(p);
      var n := ParseNat(s);
      assert n / 10 == ParseNat(p) && n % 10 == DigitValue(s[|s| - 1]);
      assert s == p + [s[|s| - 1]];
    }
  }

  /** The index of the first carriage return in `s`, or `|s|` when there is none. */
  function LineEnd(s: string): (i: nat)
    ensures i <= |s|
    ensures forall j :: 0 <= j < i ==> s[j] != '\r'
    ensures i < |s| ==> s[i] == '\r'
    decreases |s|
  {
    if s == [] || s[0] == '\r' then 0 else 1 + LineEnd(s[1..])
  }

  /** Wire encoding of a reply. */
  function Encode(r: Reply): (bytes: string)
    ensures |bytes| >= 3 && bytes[|bytes| - 2..] == CRLF
    ensures bytes[0] == (if r.Status? then '+' else if r.Error? then '-' else '$')
  {
    match r
    case Status(text) => "+" + text + CRLF
    case Bulk(payload) => "$" + NatToString(|payload|) + CRLF + payload + CRLF
    case Nil => "$-1" + CRLF
    case Error(message) => "-ERR " + message + CRLF
  }

  /** The replies whose one-line forms can be delimited: no carriage return inside the line. */
  predicate WellFormed(r: Reply) {
    match r
    case Status(text) => '\r' !in text
    case Error(message) => '\r' !in message
    case _ => true
  }

  /**
   Reads one reply: a type character, a header line up to the first CRLF and,
   for a bulk string, exactly as many characters as the header announces
   followed by CRLF. Anything else, including trailing text, is rejected.
   */
  function Decode(s: string): Option<Reply> {
    var i := LineEnd(s);
    if i == 0 || i + 1 >= |s| || s[i + 1] != '\n' then None
    else DecodeLine(s[0], s[1..i], s[i + 2..])
  }

  /** Reads a reply from its type character, its header line and what follows the header's CRLF. */
  function DecodeLine(kind: char, head: string, rest: string): Option<Reply> {
    if kind == '+' then
      if rest == [] then Some(Status(head)) else None
    else if kind == '-' then
      if rest == [] && |head| >= 4 && head[..4] == "ERR " then Some(Error(head[4..])) else None
    else if kind == '$' then
      if head == "-1" then
        if rest == [] then Some(Nil) else None
      else if IsCanonicalDecimal(head) then
        var n := ParseNat(head);
        if |rest| == n + 2 && rest[n..] == CRLF then Some(Bulk(rest[..n])) else None
      else None
    else None
  }

  /** A text framed as a type character, a header without carriage return and CRLF is read by DecodeLine. */
  lemma DecodeFramed(kind: char, head: string, rest: string)
    requires kind != '\r' && '\r' !in head
    ensures Decode([kind] + head + CRLF + rest) == DecodeLine(kind, head, rest)
  {
    var s := [kind] + head + CRLF + rest;
    assert s == ([kind] + head) + CRLF + rest;
    LineEndBefore([kind] + head, rest);
    assert s[1..|head| + 1] == head;
    assert s[|head| + 3..] == rest;
  }

  /** The first line of `p + CRLF + q` ends where `p` ends, when `p` holds no carriage return. */
  lemma LineEndBefore(p: string, q: string)
    requires '\r' !in p
    ensures LineEnd(p + CRLF + q) == |p|
  {
    var s := p + CRLF + q;
    assert s[|p|] == '\r';
    assert forall j :: 0 <= j < |p| ==> s[j] == p[j];
  }

  /** A bulk string decodes back to its payload: the header announces the payload's length. */
  lemma DecodeEncodeBulk(payload: string)
    ensures Decode(Encode(Bulk(payload))) == Some(Bulk(payload))
  {
    var digits := NatToString(|payload|);
    assert '\r' !in digits by {
      assert forall j :: 0 <= j < |digits| ==> IsDigit(digits[j]);
    }
    var rest := payload + CRLF;
    DecodeFramed('$', digits, rest);
    assert Encode(Bulk(payload)) == ['$'] + digits + CRLF + rest;
    assert digits != "-1" by {
      assert IsDigit(digits[0]);
    }
    ParseNatOfNatToString(|payload|);
    assert rest[..|payload|] == payload && rest[|payload|..] == CRLF;
  }

  /** Decoding inverts encoding on well-formed replies. */
  lemma DecodeEncode(r: Reply)
    requires WellFormed(r)
    ensures Decode(Encode(r)) == Some(r)
  {
    match r
    case Status(text) =>
      DecodeFramed('+', text, []);
      assert Encode(r) == ['+'] + text + CRLF + [];
    case Error(message) =>
      DecodeFramed('-', "ERR " + message, []);
      assert Encode(r) == ['-'] + ("ERR " + message) + CRLF + [];
      assert ("ERR " + message)[4..] == message;
    case Nil =>
      DecodeFramed('$', "-1", []);
      assert Encode(r) == ['$'] + "-1" + CRLF + [];
    case Bulk(payload) =>
      DecodeEncodeBulk(payload);
  }

  /** Encoding inverts decoding: a decodable text is exactly the encoding of its reply. */
  lemma EncodeDecode(s: string, r: Reply)
    requires Decode(s) == Some(r)
    ensures WellFormed(r) && Encode(r) == s
  {
    var i := LineEnd(s);
    var head, rest := s[1..i], s[i + 2..];
    assert s == [s[0]] + head + CRLF + rest;
    assert '\r' !in head by {
      forall j | 0 <= j < |head| ensures head[j] != '\r' {
        assert head[j] == s[j + 1];
      }
    }
    if r.Bulk? {
      EncodeDecodeBulk(s[0], head, rest, r.payload);
    } else {
      EncodeDecodeLine(s[0], head, rest, r);
    }
  }

  lemma EncodeDecodeBulk(kind: char, head: string, rest: string, payload: string)
    requires DecodeLine(kind, head, rest) == Some(Bulk(payload))
    ensures Encode(Bulk(payload)) == [kind] + head + CRLF + rest
  {
    NatToStringOfParseNat(head);
    assert rest == payload + CRLF;
  }

  lemma EncodeDecodeLine(kind: char, head: string, rest: string, r: Reply)
    requires '\r' !in head && !r.Bulk?
    requires DecodeLine(kind, head, rest) == Some(r)
    ensures WellFormed(r) && Encode(r) == [kind] + head + CRLF + rest
  {
    if kind == '+' {
      assert r == Status(head) && rest == [];
    } else if kind == '-' {
      assert r == Error(head[4..]) && rest == [] && head[..4] == "ERR ";
      assert head == "ERR " + head[4..];
    } else {
      assert kind == '$' && r == Nil && head == "-1" && rest == [];
    }
  }
}

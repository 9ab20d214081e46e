/**
 Concrete exchanges with the handler: the unknown-command reply a real Redis
 server gives to `PROUT`, the quote-insensitivity of ECHO, and a key written
 twice and read back after each write.
 */
module Scenarios {
  import opened Text
  import opened Resp
  import opened Handler

  /** A line holding only a verb outside the known four gets the unknown-command line naming it. */
  lemma BareUnknownVerb(store: map<string, string>, verb: string)
    requires ' ' !in verb && verb != [] && !IsWhitespace(verb[|verb| - 1]) && !IsKnownVerb(verb)
    ensures Step(store, verb + CRLF) == (store, Written(UnknownCommand(verb)))
  {
    ParseBareLine(verb);
  }

  /** The unknown-command line for `PROUT`, spelled out. */
  lemma ProutErrorLine()
    ensures UnknownCommand("PROUT") == "-ERR unknown command 'PROUT', with args beginning with: \r\n"
  {
  }

  /** `PROUT` gets the same error line as a real Redis server gives it. */
  lemma ProutExample(store: map<string, string>)
    ensures Step(store, "PROUT\r\n")
         == (store, Written("-ERR unknown command 'PROUT', with args beginning with: \r\n"))
  {
    assert "PROUT\r\n" == "PROUT" + CRLF;
    BareUnknownVerb(store, "PROUT");
    ProutErrorLine();
  }

  /** An ECHO of one token answers the bulk string of that token without its quotes. */
  lemma EchoOneToken(store: map<string, string>, t: string)
    ensures Dispatch(store, CommandLine("ECHO", [t])) == (store, Written(Encode(Bulk(StripQuotes(t)))))
  {
    assert Join([t], ",") == t;
  }

  /**
   `ECHO "t"` and `ECHO t` give the same answer: the bulk string of `t`, for
   any single token `t` without quotes.
   */
  lemma EchoQuotesOptional(store: map<string, string>, t: string)
    requires ' ' !in t && '"' !in t && t != [] && !IsWhitespace(t[|t| - 1])
    ensures Step(store, "ECHO \"" + t + "\"" + CRLF) == (store, Written(Encode(Bulk(t))))
    ensures Step(store, "ECHO " + t + CRLF) == (store, Written(Encode(Bulk(t))))
  {
    var quoted := "\"" + t + "\"";
    ParseUnaryLine("ECHO", quoted);
    assert "ECHO \"" + t + "\"" + CRLF == "ECHO" + " " + quoted + CRLF;
    ParseUnaryLine("ECHO", t);
    assert "ECHO " + t + CRLF == "ECHO" + " " + t + CRLF;
    StripQuotesOfQuoted(t);
    EchoOneToken(store, quoted);
    EchoOneToken(store, t);
  }

  /** `SET key "v"` stores the quoted value; `GET key` then answers `v` without quotes. */
  lemma QuotedSetThenGet(store: map<string, string>, key: string, v: string)
    requires ' ' !in key && key != [] && !IsWhitespace(key[|key| - 1])
    requires ' ' !in v && '"' !in v
    ensures var s1 := store[key := "\"" + v + "\""];
            && Step(store, "SET " + key + " \"" + v + "\"" + CRLF) == (s1, Written("+OK\r\n"))
            && Step(s1, "GET " + key + CRLF) == (s1, Written(Encode(Bulk(v))))
  {
    var q := "\"" + v + "\"";
    assert "SET " + key + " \"" + v + "\"" + CRLF == "SET " + key + " " + q + CRLF;
    SetLineStores(store, key, q);
    GetLineFinds(store[key := q], key);
    StripQuotesOfQuoted(v);
  }

  /**
   Writing a key twice with quoted values and reading it after each write:
   both writes answer `+OK`, each read answers the latest value without its
   quotes, and the map keeps the quotes.
   */
  lemma OverwriteExample(store: map<string, string>, key: string, v1: string, v2: string)
    requires ' ' !in key && key != [] && !IsWhitespace(key[|key| - 1])
    requires ' ' !in v1 && '"' !in v1 && ' ' !in v2 && '"' !in v2
    ensures var s1 := store[key := "\"" + v1 + "\""];
            var s2 := s1[key := "\"" + v2 + "\""];
            && Step(store, "SET " + key + " \"" + v1 + "\"" + CRLF) == (s1, Written("+OK\r\n"))
            && Step(s1, "GET " + key + CRLF) == (s1, Written(Encode(Bulk(v1))))
            && Step(s1, "SET " + key + " \"" + v2 + "\"" + CRLF) == (s2, Written("+OK\r\n"))
            && Step(s2, "GET " + key + CRLF) == (s2, Written(Encode(Bulk(v2))))
  {
    var s1 := store[key := "\"" + v1 + "\""];
    QuotedSetThenGet(store, key, v1);
    QuotedSetThenGet(s1, key, v2);
  }

  /** The unknown-command line for `ping`, spelled out. */
  lemma LowercasePingErrorLine()
    ensures UnknownCommand("ping") == "-ERR unknown command 'ping', with args beginning with: \r\n"
  {
  }

  /** Verbs are compared case-sensitively: `ping` is an unknown command. */
  lemma LowercasePingIsUnknown(store: map<string, string>)
    ensures Step(store, "ping\r\n")
         == (store, Written("-ERR unknown command 'ping', with args beginning with: \r\n"))
  {
    assert "ping\r\n" == "ping" + CRLF;
    BareUnknownVerb(store, "ping");
    LowercasePingErrorLine();
  }

  /** `GET` without a key answers the null bulk string, whatever the map holds. */
  lemma GetWithoutKeyIsNil(store: map<string, string>)
    ensures Step(store, "GET" + CRLF) == (store, Written("$-1\r\n"))
  {
    ParseBareLine("GET");
  }

  /** `SET key` without a value throws and leaves the map as it was. */
  lemma SetWithoutValueExample(store: map<string, string>, key: string)
    requires ' ' !in key && key != [] && !IsWhitespace(key[|key| - 1])
    ensures Step(store, "SET " + key + CRLF) == (store, Crash)
  {
    ParseUnaryLine("SET", key);
    assert "SET " + key + CRLF == "SET" + " " + key + CRLF;
  }

  /** `SET key  v` with two spaces splits into an empty value token, which is what gets stored. */
  lemma DoubleSpaceParse(key: string, v: string)
    requires ' ' !in key && ' ' !in v && v != [] && !IsWhitespace(v[|v| - 1])
    ensures Parse("SET " + key + "  " + v + CRLF) == CommandLine("SET", [key, [], v])
  {
    var tokens := ["SET", key, [], v];
    assert tokens[1..] == [key, [], v] && tokens[1..][1..] == [[], v] && tokens[1..][1..][1..] == [v];
    assert Join([v], " ") == v;
    assert Join([[], v], " ") == " " + v;
    assert Join([key, [], v], " ") == key + " " + (" " + v);
    assert Join(tokens, " ") == "SET" + " " + (key + " " + (" " + v));
    assert "SET " + key + "  " + v + CRLF == Join(tokens, " ") + CRLF;
    ParseRendered(tokens, CRLF);
  }

  /**
   `SET key  v` (two spaces) stores the empty string under `key`, and the empty
   string is falsy, so a later `GET key` answers the null bulk string.
   */
  lemma DoubleSpaceSetReadsNil(store: map<string, string>, key: string, v: string)
    requires ' ' !in key && key != [] && !IsWhitespace(key[|key| - 1])
    requires ' ' !in v && v != [] && !IsWhitespace(v[|v| - 1])
    ensures Step(store, "SET " + key + "  " + v + CRLF) == (store[key := []], Written("+OK\r\n"))
    ensures Step(store[key := []], "GET " + key + CRLF) == (store[key := []], Written("$-1\r\n"))
  {
    DoubleSpaceParse(key, v);
    assert TrimEnd([]) == [];
    ParseUnaryLine("GET", key);
    assert "GET " + key + CRLF == "GET" + " " + key + CRLF;
  }

  /** `ECHO t "` splits into the verb, `t` and a lone quote. */
  lemma EchoQuoteParse(t: string)
    requires ' ' !in t && '"' !in t
    ensures Parse("ECHO " + t + " \"" + CRLF) == CommandLine("ECHO", [t, "\""])
  {
    assert "ECHO " + t + " \"" + CRLF == "ECHO" + " " + t + " " + "\"" + CRLF;
    ParseBinaryLine("ECHO", t, "\"");
  }

  /** ECHO of two tokens answers them joined with a comma. */
  lemma EchoTwoTokens(store: map<string, string>, a: string, b: string)
    ensures Dispatch(store, CommandLine("ECHO", [a, b])) == (store, Written(SendResponseWithSize(a + "," + b)))
  {
    assert [a, b][1..] == [b];
    assert Join([b], ",") == b;
  }

  /** A comma-joined lone quote is dropped by quote removal. */
  lemma StripTrailingQuote(t: string)
    requires '"' !in t
    ensures StripQuotes(t + "," + "\"") == t + ","
  {
    var q := "\"";
    assert q[1..] == [];
    StripQuotesAppend(t + ",", q);
  }

  /** ECHO of `t` and a lone quote answers `t,`: the quote is dropped after the join. */
  lemma EchoQuoteDispatch(store: map<string, string>, t: string)
    requires '"' !in t
    ensures Dispatch(store, CommandLine("ECHO", [t, "\""])) == (store, Written(Encode(Bulk(t + ","))))
  {
    EchoTwoTokens(store, t, "\"");
    StripTrailingQuote(t);
  }

  /** `ECHO t "`: the trailing quote stops `trimEnd`, so the quote is a second parameter and leaves a comma behind. */
  lemma EchoTrailingQuote(store: map<string, string>, t: string)
    requires ' ' !in t && '"' !in t
    ensures Step(store, "ECHO " + t + " \"" + CRLF) == (store, Written(Encode(Bulk(t + ","))))
  {
    EchoQuoteParse(t);
    EchoQuoteDispatch(store, t);
  }

  /** `ECHO t ` with a trailing space: `trimEnd` removes the space, so `t` is the only parameter. */
  lemma EchoTrailingSpace(store: map<string, string>, t: string)
    requires ' ' !in t && '"' !in t && t != [] && !IsWhitespace(t[|t| - 1])
    ensures Step(store, "ECHO " + t + " " + CRLF) == (store, Written(Encode(Bulk(t))))
  {
    var tokens := ["ECHO", t];
    assert tokens[1..] == [t];
    assert Join([t], " ") == t;
    assert Join(tokens, " ") == "ECHO" + " " + t;
    assert "ECHO " + t + " " + CRLF == Join(tokens, " ") + (" " + CRLF);
    ParseRendered(tokens, " " + CRLF);
    EchoOneToken(store, t);
  }

  /** The two ECHO lines below differ only in one `"`: with quotes removed they are the same text. */
  lemma EchoLinesAgreeUnquoted(t: string)
    ensures StripQuotes("ECHO " + t + " \"" + CRLF) == StripQuotes("ECHO " + t + " " + CRLF)
  {
    QuoteBeforeLineEnd("ECHO " + t + " ");
    assert "ECHO " + t + " \"" + CRLF == ("ECHO " + t + " ") + "\"" + CRLF;
  }

  /**
   Yet those two ECHO lines get different answers: a trailing quote protects
   the space before it from `trimEnd`, so it becomes a parameter of its own.
   Quote removal happens per reply, not per line.
   */
  lemma EchoLineQuoteMatters(store: map<string, string>, t: string)
    requires ' ' !in t && '"' !in t && t != [] && !IsWhitespace(t[|t| - 1])
    ensures Step(store, "ECHO " + t + " \"" + CRLF).1 != Step(store, "ECHO " + t + " " + CRLF).1
  {
    EchoTrailingQuote(store, t);
    EchoTrailingSpace(store, t);
    BulkEncodingsDiffer(t + ",", t);
  }

  /** Different payloads give different bulk strings: the decoder tells them apart. */
  lemma BulkEncodingsDiffer(x: string, y: string)
    requires x != y
    ensures Encode(Bulk(x)) != Encode(Bulk(y))
  {
    DecodeEncode(Bulk(x));
    DecodeEncode(Bulk(y));
  }

  /** A quote just before the line terminator disappears once quotes are removed. */
  lemma QuoteBeforeLineEnd(p: string)
    ensures StripQuotes(p + "\"" + CRLF) == StripQuotes(p + CRLF)
  {
    var q := "\"";
    assert q[1..] == [];
    StripQuotesAppend(p + q, CRLF);
    StripQuotesAppend(p, q);
    StripQuotesAppend(p, CRLF);
  }
}

/**
 The `data` handler of the custom Redis server: one received chunk is parsed
 into a verb and parameters, dispatched against the shared `entries` map,
 and answered with one RESP reply. `Step` is the handler as a function of
 the map and the chunk; `Server.Handle` is the same handler updating the map
 in place.
 */
module Handler {
  import opened Text
  import opened Resp

  /** A received line split into its verb and parameters. */
  datatype CommandLine = CommandLine(verb: string, params: seq<string>)

  /** The last token of the line: the last parameter, or the verb when there is none. */
  function LastToken(c: CommandLine): string {
    if |c.params| == 0 then c.verb else c.params[|c.params| - 1]
  }

  /**
   `const [verb, ...params] = args.toString().trimEnd().split(' ')`.
   The tokens, joined again with single spaces, give back the trimmed line;
   none holds a space, and trailing whitespace (the line terminator) never
   reaches the last token.
   */
  function Parse(chunk: string): (c: CommandLine)
    ensures Join([c.verb] + c.params, " ") == TrimEnd(chunk)
    ensures ' ' !in c.verb && forall i :: 0 <= i < |c.params| ==> ' ' !in c.params[i]
    ensures TrimEnd(chunk) != [] ==> LastToken(c) != [] && !IsWhitespace(LastToken(c)[|LastToken(c)| - 1])
  {
    var line := TrimEnd(chunk);
    var tokens := Split(line, ' ');
    var c := CommandLine(tokens[0], tokens[1..]);
    assert [c.verb] + c.params == tokens;
    assert LastToken(c) == tokens[|tokens| - 1];
    LastTokenOfTrimmed(tokens, line);
    c
  }

  /** In a join with single spaces of a line that does not end in whitespace, the last part is not empty and ends the line. */
  lemma LastTokenOfTrimmed(tokens: seq<string>, line: string)
    requires |tokens| >= 1 && Join(tokens, " ") == line
    ensures line != [] && !IsWhitespace(line[|line| - 1]) ==>
              var last := tokens[|tokens| - 1]; last != [] && !IsWhitespace(last[|last| - 1])
  {
    JoinLast(tokens, " ");
    var last := tokens[|tokens| - 1];
    if |tokens| > 1 {
      var front := Join(tokens[..|tokens| - 1], " ") + " ";
      assert line == front + last;
      assert front[|front| - 1] == ' ';
      assert last != [] ==> line[|line| - 1] == last[|last| - 1];
    }
  }

  /** A line written as space-separated tokens and padded with whitespace parses back into those tokens. */
  lemma ParseRendered(tokens: seq<string>, tail: string)
    requires |tokens| >= 1 && forall i :: 0 <= i < |tokens| ==> ' ' !in tokens[i]
    requires var last := tokens[|tokens| - 1]; last != [] && !IsWhitespace(last[|last| - 1])
    requires forall i :: 0 <= i < |tail| ==> IsWhitespace(tail[i])
    ensures Parse(Join(tokens, " ") + tail) == CommandLine(tokens[0], tokens[1..])
  {
    var line := Join(tokens, " ");
    JoinLast(tokens, " ");
    TrimEndOfPadded(line, tail);
    SplitOfJoin(tokens, ' ');
  }

  /** What the handler does with one chunk: write these bytes, or throw. */
  datatype Outcome = Written(bytes: string) | Crash

  /** `sendResponseWithSize`: a bulk string carrying `data` with every `"` removed. */
  function SendResponseWithSize(data: string): string {
    Encode(Bulk(StripQuotes(data)))
  }

  /**
   What `sendResponseWithSize` writes reads back as one bulk string whose
   payload is `data` without its quotes: the announced length is the length
   of that payload, and no quote reaches the wire.
   */
  lemma SendResponseWithSizeDecodes(data: string)
    ensures Decode(SendResponseWithSize(data)) == Some(Bulk(StripQuotes(data)))
    ensures SendResponseWithSize(data)[0] == '$' && '"' !in SendResponseWithSize(data)
  {
    var payload := StripQuotes(data);
    DecodeEncode(Bulk(payload));
    var digits := NatToString(|payload|);
    assert '"' !in digits by {
      assert forall j :: 0 <= j < |digits| ==> IsDigit(digits[j]);
    }
    assert SendResponseWithSize(data) == "$" + digits + CRLF + payload + CRLF;
    assert '"' !in CRLF && '"' !in payload;
  }

  /** The error line written for a verb outside PING, ECHO, GET and SET. */
  function UnknownCommand(verb: string): string {
    "-ERR unknown command '" + verb + "', with args beginning with: \r\n"
  }

  predicate IsKnownVerb(verb: string) {
    verb == "PING" || verb == "ECHO" || verb == "GET" || verb == "SET"
  }

  /** The value GET finds: none without a key token or for an absent key. */
  function Lookup(store: map<string, string>, params: seq<string>): Option<string> {
    if |params| == 0 || params[0] !in store then None else Some(store[params[0]])
  }

  /**
   How a lookup sees the map after a SET: the key just written gives the value
   written, any other key gives what it gave before, and without a key token
   nothing is found, whatever was stored.
   */
  lemma LookupAfterSet(store: map<string, string>, key: string, value: string, probe: string, rest: seq<string>)
    ensures Lookup(store[key := value], [probe] + rest)
         == if probe == key then Some(value) else Lookup(store, [probe] + rest)
    ensures Lookup(store[key := value], []) == None
  {
  }

  /**
   The switch on the verb. Only a SET with a key and a value changes the map,
   and only a SET without them throws.
   */
  function Dispatch(store: map<string, string>, c: CommandLine): (r: (map<string, string>, Outcome))
    ensures r.0 != store ==> c.verb == "SET" && |c.params| >= 2
    ensures r.1.Crash? <==> c.verb == "SET" && |c.params| < 2
  {
    if c.verb == "PING" then
      (store, Written("+PONG\r\n"))
    else if c.verb == "ECHO" then
      (store, Written(SendResponseWithSize(Join(c.params, ","))))
    else if c.verb == "GET" then
      var entry := Lookup(store, c.params);
      if entry.None? || entry.value == "" then (store, Written("$-1\r\n"))
      else (store, Written(SendResponseWithSize(entry.value)))
    else if c.verb == "SET" then
      if |c.params| < 2 then (store, Crash)
      else (store[c.params[0] := TrimEnd(c.params[1])], Written("+OK\r\n"))
    else
      (store, Written(UnknownCommand(c.verb)))
  }

  /** One received chunk handled against the map: the new map and what is written back. */
  function Step(store: map<string, string>, chunk: string): (map<string, string>, Outcome) {
    Dispatch(store, Parse(chunk))
  }

  /**
   The server's shared state: the `entries` map every connection reads and
   writes, and whether a handler has thrown, which ends the process.
   */
  class Server {
    var entries: map<string, string>
    var crashed: bool

    constructor ()
      ensures entries == map[] && !crashed
    {
      entries := map[];
      crashed := false;
    }

    /** The `data` event handler: parse the chunk, act on `entries`, answer. */
    method Handle(chunk: string) returns (outcome: Outcome)
      requires !crashed
      modifies this
      ensures (entries, outcome) == Step(old(entries), chunk)
      ensures crashed <==> outcome.Crash?
    {
      var c := Parse(chunk);
      var verb, params := c.verb, c.params;
      if verb == "PING" {
        outcome := Written("+PONG\r\n");
      } else if verb == "ECHO" {
        outcome := Written(SendResponseWithSize(Join(params, ",")));
      } else if verb == "GET" {
        if |params| == 0 || params[0] !in entries || entries[params[0]] == "" {
          outcome := Written("$-1\r\n");
        } else {
          outcome := Written(SendResponseWithSize(entries[params[0]]));
        }
      } else if verb == "SET" {
        if |params| < 2 {
          outcome := Crash;
          crashed := true;
        } else {
          entries := entries[params[0] := TrimEnd(params[1])];
          outcome := Written("+OK\r\n");
        }
      } else {
        outcome := Written(UnknownCommand(verb));
      }
    }
  }

  // ---------------------------------------------------------------------------
  // Properties of the handler

  /** PING answers `+PONG` whatever its parameters and the map, and leaves the map alone. */
  lemma PingAnswersPong(store: map<string, string>, chunk: string)
    requires Parse(chunk).verb == "PING"
    ensures Step(store, chunk) == (store, Written("+PONG\r\n"))
  {
  }

  /**
   ECHO answers the bulk string of its parameters joined with commas, quotes
   removed: the announced length is the length of what follows it.
   */
  lemma EchoAnswersJoinedParams(store: map<string, string>, chunk: string)
    requires Parse(chunk).verb == "ECHO"
    ensures Step(store, chunk).0 == store
    ensures Step(store, chunk).1.Written?
    ensures Decode(Step(store, chunk).1.bytes) == Some(Bulk(StripQuotes(Join(Parse(chunk).params, ","))))
  {
    SendResponseWithSizeDecodes(Join(Parse(chunk).params, ","));
  }

  /** ECHO lines whose parameters differ only in double quotes get the same answer. */
  lemma EchoIgnoresQuotes(store: map<string, string>, chunk1: string, chunk2: string)
    requires Parse(chunk1).verb == "ECHO" && Parse(chunk2).verb == "ECHO"
    requires |Parse(chunk1).params| == |Parse(chunk2).params|
    requires forall i :: 0 <= i < |Parse(chunk1).params| ==>
               StripQuotes(Parse(chunk1).params[i]) == StripQuotes(Parse(chunk2).params[i])
    ensures Step(store, chunk1) == Step(store, chunk2)
  {
    StripQuotesJoinCongruent(Parse(chunk1).params, Parse(chunk2).params, ",");
  }

  /**
   SET with a key and a value answers `+OK` and stores the value token with
   trailing whitespace trimmed (quotes kept); every other key keeps its value.
   */
  lemma SetStoresValue(store: map<string, string>, chunk: string)
    requires Parse(chunk).verb == "SET" && |Parse(chunk).params| >= 2
    ensures var key, value := Parse(chunk).params[0], TrimEnd(Parse(chunk).params[1]);
            var (store', outcome) := Step(store, chunk);
            && outcome == Written("+OK\r\n")
            && key in store' && store'[key] == value
            && store'.Keys == store.Keys + {key}
            && forall k :: k in store && k != key ==> store'[k] == store[k]
  {
  }

  /** SET without a value token throws before touching the map, and nothing is written. */
  lemma SetWithoutValueCrashes(store: map<string, string>, chunk: string)
    requires Parse(chunk).verb == "SET" && |Parse(chunk).params| < 2
    ensures Step(store, chunk) == (store, Crash)
  {
  }

  /** Two SETs of the same key: the second value is the one kept. */
  lemma LastWriteWins(store: map<string, string>, chunk1: string, chunk2: string)
    requires Parse(chunk1).verb == "SET" && |Parse(chunk1).params| >= 2
    requires Parse(chunk2).verb == "SET" && |Parse(chunk2).params| >= 2
    requires Parse(chunk1).params[0] == Parse(chunk2).params[0]
    ensures Step(Step(store, chunk1).0, chunk2).0 == Step(store, chunk2).0
  {
  }

  /**
   GET answers the null bulk string exactly when there is no key token, the key
   is absent, or its value is empty; otherwise the bulk string of the stored
   value with quotes removed. GET never changes the map.
   */
  lemma GetAnswers(store: map<string, string>, chunk: string)
    requires Parse(chunk).verb == "GET"
    ensures var params := Parse(chunk).params;
            var miss := |params| == 0 || params[0] !in store || store[params[0]] == "";
            var (store', outcome) := Step(store, chunk);
            && store' == store
            && outcome.Written?
            && (outcome.bytes == "$-1\r\n" <==> miss)
            && (!miss ==> Decode(outcome.bytes) == Some(Bulk(StripQuotes(store[params[0]]))))
  {
    GetDispatch(store, Parse(chunk));
  }

  /** GetAnswers for an already parsed line. */
  lemma GetDispatch(store: map<string, string>, c: CommandLine)
    requires c.verb == "GET"
    ensures var miss := |c.params| == 0 || c.params[0] !in store || store[c.params[0]] == "";
            var (store', outcome) := Dispatch(store, c);
            && store' == store
            && outcome.Written?
            && (outcome.bytes == "$-1\r\n" <==> miss)
            && (!miss ==> Decode(outcome.bytes) == Some(Bulk(StripQuotes(store[c.params[0]]))))
  {
    var miss := |c.params| == 0 || c.params[0] !in store || store[c.params[0]] == "";
    if miss {
      assert Dispatch(store, c) == (store, Written("$-1\r\n"));
    } else {
      var value := store[c.params[0]];
      assert Dispatch(store, c) == (store, Written(SendResponseWithSize(value)));
      SendResponseWithSizeDecodes(value);
      NilLineDecodes();
    }
  }

  /** The null bulk string line reads back as Nil, so no bulk string is written as it. */
  lemma NilLineDecodes()
    ensures Decode("$-1\r\n") == Some(Nil)
  {
    DecodeEncode(Nil);
    assert Encode(Nil) == "$-1\r\n";
  }

  /** A verb alone with a line terminator parses into that verb and no parameters. */
  lemma ParseBareLine(verb: string)
    requires ' ' !in verb && verb != [] && !IsWhitespace(verb[|verb| - 1])
    ensures Parse(verb + CRLF) == CommandLine(verb, [])
  {
    assert Join([verb], " ") == verb;
    ParseRendered([verb], CRLF);
  }

  /** `verb arg` with a line terminator parses into the verb and the one parameter. */
  lemma ParseUnaryLine(verb: string, arg: string)
    requires ' ' !in verb && ' ' !in arg && arg != [] && !IsWhitespace(arg[|arg| - 1])
    ensures Parse(verb + " " + arg + CRLF) == CommandLine(verb, [arg])
  {
    var tokens := [verb, arg];
    assert tokens[1..] == [arg];
    assert Join([arg], " ") == arg;
    assert Join(tokens, " ") == verb + " " + arg;
    ParseRendered(tokens, CRLF);
  }

  /** `verb key value` with a line terminator parses into the verb and the two parameters. */
  lemma ParseBinaryLine(verb: string, key: string, value: string)
    requires ' ' !in verb && ' ' !in key && ' ' !in value && value != [] && !IsWhitespace(value[|value| - 1])
    ensures Parse(verb + " " + key + " " + value + CRLF) == CommandLine(verb, [key, value])
  {
    var tokens := [verb, key, value];
    assert tokens[1..] == [key, value] && tokens[1..][1..] == [value];
    assert Join([value], " ") == value;
    assert Join([key, value], " ") == key + " " + value;
    assert Join(tokens, " ") == verb + " " + (key + " " + value);
    assert verb + " " + key + " " + value + CRLF == Join(tokens, " ") + CRLF;
    ParseRendered(tokens, CRLF);
  }

  /** A `SET key value` line stores `value` under `key` and answers `+OK`. */
  lemma SetLineStores(store: map<string, string>, key: string, value: string)
    requires ' ' !in key && ' ' !in value && value != [] && !IsWhitespace(value[|value| - 1])
    ensures Step(store, "SET " + key + " " + value + CRLF) == (store[key := value], Written("+OK\r\n"))
  {
    ParseBinaryLine("SET", key, value);
    assert "SET " + key + " " + value + CRLF == "SET" + " " + key + " " + value + CRLF;
    TrimEndUnique(value, value);
  }

  /** A `GET key` line for a key holding a non-empty value answers it as a bulk string. */
  lemma GetLineFinds(store: map<string, string>, key: string)
    requires ' ' !in key && key != [] && !IsWhitespace(key[|key| - 1])
    requires key in store && store[key] != ""
    ensures Step(store, "GET " + key + CRLF) == (store, Written(SendResponseWithSize(store[key])))
  {
    ParseUnaryLine("GET", key);
    assert "GET " + key + CRLF == "GET" + " " + key + CRLF;
  }

  /**
   A SET line followed by a GET line for the same key answers the stored value,
   quotes removed, when the value is not empty.
   */
  lemma SetThenGet(store: map<string, string>, key: string, value: string)
    requires ' ' !in key && key != [] && !IsWhitespace(key[|key| - 1])
    requires ' ' !in value && value != [] && !IsWhitespace(value[|value| - 1])
    ensures var store1 := store[key := value];
            && Step(store, "SET " + key + " " + value + CRLF) == (store1, Written("+OK\r\n"))
            && Step(store1, "GET " + key + CRLF).0 == store1
            && Step(store1, "GET " + key + CRLF).1.Written?
            && Decode(Step(store1, "GET " + key + CRLF).1.bytes) == Some(Bulk(StripQuotes(value)))
  {
    SetLineStores(store, key, value);
    GetLineFinds(store[key := value], key);
    SendResponseWithSizeDecodes(value);
  }

  /** A GET line for a key never written answers the null bulk string. */
  lemma GetAbsentIsNil(store: map<string, string>, key: string)
    requires ' ' !in key && key != [] && !IsWhitespace(key[|key| - 1])
    requires key !in store
    ensures Step(store, "GET " + key + CRLF) == (store, Written("$-1\r\n"))
  {
    ParseUnaryLine("GET", key);
    assert "GET " + key + CRLF == "GET" + " " + key + CRLF;
  }

  /**
   A verb other than PING, ECHO, GET and SET (compared case-sensitively) is
   answered with the unknown-command error naming it, and the map is kept.
   */
  lemma UnknownVerbIsError(store: map<string, string>, chunk: string)
    requires !IsKnownVerb(Parse(chunk).verb)
    ensures Step(store, chunk)
         == (store, Written("-ERR unknown command '" + Parse(chunk).verb + "', with args beginning with: \r\n"))
  {
  }

  /** The error reply is given exactly to the verbs outside the known four. */
  lemma ErrorOnlyForUnknownVerb(store: map<string, string>, chunk: string)
    ensures var outcome := Step(store, chunk).1;
            (outcome.Written? && outcome.bytes[0] == '-') <==> !IsKnownVerb(Parse(chunk).verb)
  {
    var c := Parse(chunk);
    if c.verb == "ECHO" {
      SendResponseWithSizeDecodes(Join(c.params, ","));
    } else if c.verb == "GET" {
      var entry := Lookup(store, c.params);
      if entry.Some? && entry.value != "" {
        SendResponseWithSizeDecodes(entry.value);
      }
    }
  }

  // ---------------------------------------------------------------------------
  // The literal replies as encoded replies

  /** The fixed lines the handler writes are the encodings of the replies they stand for. */
  lemma LiteralRepliesEncode()
    ensures "+PONG\r\n" == Encode(Status("PONG"))
    ensures "+OK\r\n" == Encode(Status("OK"))
    ensures "$-1\r\n" == Encode(Nil)
  {
  }

  /** The unknown-command line is the encoding of an error reply. */
  lemma UnknownCommandEncodes(verb: string)
    ensures UnknownCommand(verb) == Encode(Error(UnknownCommandMessage(verb)))
  {
    var m := UnknownCommandMessage(verb);
    assert Encode(Error(m)) == "-ERR " + m + CRLF;
    assert "-ERR " + m + CRLF
        == "-ERR unknown command '" + verb + "', with args beginning with: \r\n";
  }

  /** The message of the unknown-command error, without the `ERR ` prefix. */
  function UnknownCommandMessage(verb: string): string {
    "unknown command '" + verb + "', with args beginning with: "
  }

  /**
   Whatever the handler writes reads back as exactly one reply, as long as
   the verb holds no carriage return.
   */
  lemma StepDecodes(store: map<string, string>, chunk: string)
    requires '\r' !in Parse(chunk).verb
    ensures Step(store, chunk).1.Written? ==> Decode(Step(store, chunk).1.bytes).Some?
  {
    DispatchDecodes(store, Parse(chunk));
  }

  /** StepDecodes for an already parsed line. */
  lemma DispatchDecodes(store: map<string, string>, c: CommandLine)
    requires '\r' !in c.verb
    ensures Dispatch(store, c).1.Written? ==> Decode(Dispatch(store, c).1.bytes).Some?
  {
    if c.verb == "PING" {
      FixedLineDecodes("+PONG\r\n", Status("PONG"));
    } else if c.verb == "ECHO" {
      SendResponseWithSizeDecodes(Join(c.params, ","));
    } else if c.verb == "GET" {
      var entry := Lookup(store, c.params);
      if entry.None? || entry.value == "" {
        NilLineDecodes();
      } else {
        SendResponseWithSizeDecodes(entry.value);
      }
    } else if c.verb == "SET" {
      if |c.params| >= 2 {
        FixedLineDecodes("+OK\r\n", Status("OK"));
      }
    } else {
      assert Dispatch(store, c).1 == Written(UnknownCommand(c.verb));
      UnknownCommandDecodes(c.verb);
    }
  }

  /** Without a carriage return in the verb, the unknown-command line reads back as its error reply. */
  lemma UnknownCommandDecodes(verb: string)
    requires '\r' !in verb
    ensures Decode(UnknownCommand(verb)) == Some(Error(UnknownCommandMessage(verb)))
  {
    var m := UnknownCommandMessage(verb);
    assert '\r' !in m;
    UnknownCommandEncodes(verb);
    DecodeEncode(Error(m));
  }

  /** A fixed line that is the encoding of a well-formed reply reads back as it. */
  lemma FixedLineDecodes(line: string, r: Reply)
    requires line == Encode(r) && WellFormed(r)
    ensures Decode(line) == Some(r)
  {
    DecodeEncode(r);
  }

  /**
   A verb with a carriage return inside is echoed into the unknown-command
   line, which then does not read back as one reply.
   */
  lemma UnknownCommandWithCarriageReturn(verb: string)
    requires '\r' in verb
    ensures Decode(UnknownCommand(verb)) == None
  {
    var s := UnknownCommand(verb);
    var pre := "-ERR unknown command '";
    var post := "', with args beginning with: \r\n";
    assert s == pre + verb + post;
    var k :| 0 <= k < |verb| && verb[k] == '\r';
    assert s[|pre| + k] == '\r';
    var i := LineEnd(s);
    assert i <= |pre| + k;
    assert |s| == |pre| + |verb| + |post|;
    assert i + 2 < |s|;
  }
}

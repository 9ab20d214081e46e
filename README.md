# RedisTS request handler, modelled in Dafny

RedisTS is a small in-memory key-value server written in TypeScript. It
speaks a handful of commands of the Redis Serialization Protocol (RESP2).
Its core is the `data` handler in `app.ts`. The handler takes one received
chunk and trims its trailing whitespace. It splits the chunk on single
spaces into a verb and parameters. It then matches the verb against `PING`,
`ECHO`, `GET` and `SET`, reading or updating the shared `entries` map, and
writes back one reply:

- a simple string `+…\r\n`;
- a bulk string `$len\r\n…\r\n`, whose payload has every `"` removed;
- the null bulk string `$-1\r\n`;
- the error `-ERR unknown command '<verb>', with args beginning with: \r\n`.

The project has four modules:

- `Text` (text.dfy) holds the JavaScript string built-ins the handler uses.
  These are `trimEnd`, `split(' ')`, `join` and `replace(/"/g, '')`.
  `Join` is fixed by its definition: the parts with the separator between
  neighbours, as `Array.prototype.join` does it. `TrimEnd` is fixed by the
  three properties in its contract, which `TrimEndUnique` shows determine
  the result. `Split` is fixed by its three ensures clauses (at least one
  part, no part holds the separator, joining the parts gives the input back)
  together with `SplitOfJoin`, which proves the converse. `StripQuotes` is
  fixed by its contract (no quote left, every other character kept with its
  multiplicity) together with `StripQuotesAppend`, which fixes the order.
- `Resp` (resp.dfy) holds the reply datatype, its wire encoding, and the
  decimal numerals used in bulk headers. It also has a separate decoder.
  `DecodeEncode` and `EncodeDecode` prove that the encoder and decoder are
  inverses, for replies whose status or error text holds no carriage return.
  So the length a bulk header announces is the length of the payload that
  follows. An error line naming a verb with a carriage return inside does not
  read back as one reply (`UnknownCommandWithCarriageReturn`).
- `Handler` (handler.dfy) holds the handler. `Parse` splits a line and
  `Dispatch` is the switch on the verb. `Step` is one chunk handled against
  the map, as a pure function. The class `Server` keeps `entries` as a
  mutable `map` field, and a `crashed` flag for a handler that has thrown.
  Its `Handle` method updates those fields in place, and its contract ties
  each call to `Step`. Lemmas state what each command does, and that the
  fixed reply lines are encodings of `Reply` values.
- `Scenarios` (scenarios.dfy) holds concrete exchanges. These are the
  `PROUT` error line, `ECHO "t"` against `ECHO t`, a key written twice, and
  the quirks listed below.

The handler runs once per chunk, and the model treats each call as one
atomic step on the map. A `SET` with fewer than two parameters makes
`params[1].trimEnd()` throw a `TypeError` before the map is touched. The
model represents this as the outcome `Crash`, with the map unchanged and
nothing written. The exception is not caught, so the process ends: `Server`
records it in `crashed`, and `Handle` is not called again after it.

Where the code differs from what a real Redis server does, the model
follows the code (`app.ts`):

- Tokens are split on the single character `' '`, not on whitespace in
  general, so two spaces in a row give an empty token.
- Quotes are removed from the reply, not from the line. Two ECHO lines that
  differ only in one `"` can get different answers: `ECHO a "` answers `a,`
  and `ECHO a ` answers `a`, because the quote keeps the space before it from
  `trimEnd` and becomes a parameter of its own.
- `ECHO` joins its parameters with `,`, the default separator of `join()`.
  `ECHO a b` answers `a,b`.
- `SET` stores `params[1].trimEnd()` only, not the rest of the line, and
  keeps the quotes in the map. Quotes are removed only when a reply is
  encoded.
- `GET` answers `$-1` for a missing key token, an absent key, and also a key
  whose value is the empty string (`!entry` is true for `""`). It never
  answers an error.
- `SET` without a value is not answered with an error. The handler throws
  (`Crash`).
- `trimEnd` removes all ECMAScript white space and line terminators, not
  only `\r\n`, both on the whole line and on the stored value.

## Model

| member | source | states |
|---|---|---|
| `Text.TrimEnd` | app.ts:14 | the result is the prefix of the input that does not end in whitespace, and everything cut off is whitespace |
| `Text.TrimEndUnique` | app.ts:14 | those three properties determine `trimEnd`'s result uniquely |
| `Text.TrimEndOfPadded` | app.ts:14 | padding a line that does not end in whitespace with whitespace (such as `\r\n`) is undone by `trimEnd` |
| `Text.Join` | app.ts:23 | `params.join()`: defined as the parts with the separator between neighbours, as `Array.prototype.join` does it; `SplitOfJoin` and `JoinLast` state how it relates to `Split` and where its last part sits |
| `Text.Split` | app.ts:15 | `split(' ')` gives at least one part, no part holds the separator, and joining the parts with the separator gives the input back |
| `Text.SplitOfJoin` | app.ts:15 | splitting undoes joining when no part holds the separator (the converse of Split's contract) |
| `Text.StripQuotes` | app.ts:10 | `replace(/"/g, '')` leaves no quote, keeps every other character with its multiplicity, and is the identity on quote-free text |
| `Text.StripQuotesAppend` | app.ts:10 | quote removal distributes over concatenation, so the order of the remaining characters is kept |
| `Text.StripQuotesOfQuoted` | app.ts:10 | a quoted, quote-free text loses exactly its two quotes |
| `Text.StripQuotesJoinCongruent` | app.ts:23 | parameter lists that agree once unquoted give joined texts that agree once unquoted |
| `Resp.NatToString` | app.ts:11 | the length in a bulk header is a canonical decimal numeral (digits, no leading zero), starting with `0` only for zero |
| `Resp.ParseNatOfNatToString` | app.ts:11 | reading the printed length back gives the length |
| `Resp.NatToStringOfParseNat` | app.ts:11 | every canonical numeral is the printed form of its value |
| `Resp.Encode` | app.ts:11 | every reply ends in CRLF and starts with `+`, `-` or `$` according to its kind |
| `Resp.DecodeEncode` | app.ts:11 | for a reply whose status or error text holds no carriage return, decoding its encoding gives the reply back; for a bulk string this means the announced length equals the payload's length |
| `Resp.EncodeDecode` | app.ts:11 | any text that decodes to a reply is exactly that reply's encoding, so the encoding is the only way to write it |
| `Handler.Parse` | app.ts:14-15 | the verb and parameters, joined with single spaces, give the trimmed line; no token holds a space; the last token never ends in whitespace, so `\r\n` never reaches it |
| `Handler.ParseRendered` | app.ts:14-15 | a line written as space-free tokens plus trailing whitespace parses back into exactly those tokens |
| `Handler.ParseBinaryLine` | app.ts:14-15 | `verb key value\r\n` parses into the verb and the two parameters |
| `Handler.SendResponseWithSize` | app.ts:9-12 | `sendResponseWithSize`: defined as the bulk-string encoding of `data` with every `"` removed; what that means on the wire is the contract of `SendResponseWithSizeDecodes` |
| `Handler.SendResponseWithSizeDecodes` | app.ts:9-11 | the bulk reply decodes to the payload with every `"` removed; its header announces that payload's length; no quote is written |
| `Handler.Lookup` | app.ts:26 | defined as `entries.get(params[0])`, with no key token read as the `undefined` key, which is never stored; `LookupAfterSet` relates it to SET and `GetAnswers` states what GET answers |
| `Handler.LookupAfterSet` | app.ts:26-33 | after a SET of `key`, looking up `key` gives the value written, any other key gives what it gave before, and a lookup without a key token finds nothing |
| `Handler.UnknownCommand` | app.ts:37 | the template literal naming the verb; `UnknownCommandEncodes` shows it is the encoding of an error reply |
| `Handler.Dispatch` | app.ts:18-38 | only a SET with a key and a value changes the map, and the handler throws exactly for a SET with fewer than two parameters |
| `Handler.Step` | app.ts:14-38 | one chunk handled against the map: `Parse` then `Dispatch`; the per-verb lemmas below and `Server.Handle` are stated against it |
| `Handler.Server.constructor` | app.ts:4 | the server starts with an empty `entries` map and has not crashed |
| `Handler.Server.Handle` | app.ts:8-38 | on a server that has not crashed, handling a chunk updates `entries` and produces the outcome exactly as `Step` does on the old map; the server is crashed afterwards exactly when the handler threw |
| `Handler.PingAnswersPong` | app.ts:19-21 | PING answers `+PONG\r\n` whatever its parameters and the map, and keeps the map |
| `Handler.EchoAnswersJoinedParams` | app.ts:22-23 | ECHO keeps the map and writes a bulk string whose payload is the parameters joined with `,`, quotes removed |
| `Handler.EchoIgnoresQuotes` | app.ts:22-23 | two ECHO lines whose parameters, token by token, differ only in `"` characters get identical answers (for whole lines this fails, see `EchoLineQuoteMatters`) |
| `Handler.SetStoresValue` | app.ts:32-34 | SET with two parameters answers `+OK\r\n` and stores `trimEnd(params[1])` under `params[0]`; all other keys keep their values and no key is lost |
| `Handler.SetWithoutValueCrashes` | app.ts:33 | SET with fewer than two parameters throws, writes nothing and keeps the map |
| `Handler.LastWriteWins` | app.ts:33 | after two SETs of the same key, the map is the one the second SET alone makes (last write wins) |
| `Handler.GetAnswers` | app.ts:25-30 | GET keeps the map; it answers `$-1\r\n` exactly when there is no key token, the key is absent or its value is empty, and otherwise the stored value as a quote-free bulk string |
| `Handler.SetLineStores` | app.ts:32-34 | the line `SET key value\r\n` stores `value` under `key` and answers `+OK\r\n` |
| `Handler.GetLineFinds` | app.ts:25-30 | the line `GET key\r\n` for a key with a non-empty value answers that value through the bulk encoder |
| `Handler.SetThenGet` | app.ts:25-34 | `SET key value` then `GET key` answers the stored value with quotes removed |
| `Handler.GetAbsentIsNil` | app.ts:26-29 | `GET key` for a key never written answers `$-1\r\n` |
| `Handler.UnknownVerbIsError` | app.ts:36-37 | any verb other than the exact strings PING, ECHO, GET and SET gets the unknown-command line naming it, and the map is kept |
| `Handler.ErrorOnlyForUnknownVerb` | app.ts:18-37 | the reply starts with `-` if and only if the verb is not one of the four known ones |
| `Handler.LiteralRepliesEncode` | app.ts:20-34 | the fixed lines `+PONG\r\n`, `$-1\r\n` and `+OK\r\n` are the encodings of the simple strings `PONG` and `OK` and of the null bulk string |
| `Handler.UnknownCommandEncodes` | app.ts:37 | the unknown-command line is the encoding of the error reply `unknown command '<verb>', with args beginning with: ` |
| `Handler.UnknownCommandDecodes` | app.ts:37 | when the verb holds no carriage return, the unknown-command line reads back as that error reply |
| `Handler.UnknownCommandWithCarriageReturn` | app.ts:14-37 | a verb with a carriage return inside (which `trimEnd` keeps) is copied into the error line, which then does not read back as one reply |
| `Handler.StepDecodes` | app.ts:18-38 | every line the handler writes reads back as exactly one reply, whenever the verb holds no carriage return |
| `Scenarios.BareUnknownVerb` | app.ts:14-37 | a line holding only a verb outside the known four gets the unknown-command line naming that verb, and the map is kept |
| `Scenarios.ProutExample` | test/ping.spec.ts:60-64 | `PROUT\r\n` gets `-ERR unknown command 'PROUT', with args beginning with: \r\n`, the line a real Redis server sends |
| `Scenarios.LowercasePingIsUnknown` | app.ts:18-20 | `ping` in lower case is an unknown command, because verbs are compared case-sensitively |
| `Scenarios.EchoOneToken` | app.ts:22-23 | ECHO of one token answers that token's bulk string without quotes |
| `Scenarios.EchoQuotesOptional` | app.ts:22-23 | `ECHO "t"` and `ECHO t` both answer the bulk string of `t` |
| `Scenarios.EchoTrailingQuote` | app.ts:14-23 | `ECHO t "` keeps the space before the quote, so the lone quote is a second parameter and the answer is the bulk string of `t,` |
| `Scenarios.EchoTrailingSpace` | app.ts:14-23 | `ECHO t ` loses its trailing space to `trimEnd` and answers the bulk string of `t` |
| `Scenarios.EchoLinesAgreeUnquoted` | app.ts:10 | `ECHO t "` and `ECHO t ` are the same text once quotes are removed |
| `Scenarios.EchoLineQuoteMatters` | app.ts:10-23 | yet those two lines get different answers, because quotes are removed from the reply, after `trimEnd` and `split` |
| `Scenarios.QuotedSetThenGet` | app.ts:25-34 | `SET key "v"` stores the quotes; `GET key` answers `v` without them |
| `Scenarios.OverwriteExample` | app.ts:25-34 | writing a key twice and reading after each write answers `+OK`, the first value, `+OK`, the second value |
| `Scenarios.GetWithoutKeyIsNil` | app.ts:26-29 | `GET` with no key token answers `$-1\r\n` |
| `Scenarios.SetWithoutValueExample` | app.ts:33 | `SET key` with no value token throws and keeps the map |
| `Scenarios.DoubleSpaceParse` | app.ts:15 | `SET key  v` with two spaces parses into the parameters `key`, an empty token and `v` |
| `Scenarios.DoubleSpaceSetReadsNil` | app.ts:28-33 | `SET key  v` stores the empty string, and a later `GET key` answers `$-1\r\n` because the empty string is falsy |

## Left out

- Sockets, encoding and logging (`net.createServer`, `setEncoding("ascii")`, the `data` event wiring, `server.listen`, `console.log`, the start call at app.ts:45). These are I/O and bootstrap. The model takes one chunk in and gives one outcome out.
- Chunk framing. The handler assumes one received chunk is one command line. The model keeps that assumption and does not buffer across chunks.
- Concurrency. Connections share `entries`, and each `Step` or `Handle` call is modelled as one atomic update of the map.
- What happens after the `TypeError` thrown by a `SET` without a value. The exception leaves the event handler and takes the process down, closing every connection. The model stops at `Crash`, with no reply and the map unchanged, and `Server.Handle` may not be called once `crashed` is set; the shutdown itself is not modelled.
- Byte length versus UTF-16 length. Text is a sequence of characters, and the bulk length is the number of characters. With ASCII decoding the two agree.
- The test harness in test/ping.spec.ts: containers, sockets, and a stub server that always writes `+PONG`. Only the reply line it expects for `PROUT` is modelled.

# OPC UA client core in Dafny

A model of the decision logic of a small C# OPC UA client, with proofs. The client wraps an OPC UA stack: it connects to a server, reads and writes node values, and decodes the packed BCD `DATE_AND_TIME` value of Siemens S7 controllers. Every call into the stack is a parameter of the model, standing for what the stack answered. What remains can be stated exactly: the date decoder, the `OpcValue` record, and the client's session, discovery, certificate, read and write decisions.

Files:

- `Wrappers.dfy`: `Option` for a null or thrown result, and `Result` for a computation that stops with an exception.
- `NumberFormat.dfy`: the byte and uint32 types. `X2` is `ToString("X2")`, two upper-case hex digits. `ParseDecimal` is the decimal parse of `Convert.ToInt32`, `Convert.ToByte` and `byte.Parse` on such text.
- `DataConverter.dfy`: `GetDateTime` models the source step by step. It formats each byte as hex, parses that text as decimal, and calls the `DateTime` constructor. The lemmas tie this to nibble arithmetic, the Gregorian calendar and an encoder.
- `OpcValue.dfy` (module `Model`): the StatusCode severity rule, the `Value` cases, and the `OpcValue` class. The class has its setters, the `ValueStr` loop and `ToString`.
- `OpcUaClient.dfy` (module `Client`):
  - a `Session` class for the stack's session;
  - the client class with `Connect`, `Disconnect`, `Connected`, the certificate handler, `ListEndpoints`, `ReadValues`, `WriteValues` and `WriteUDT`;
  - the endpoint discovery and endpoint selection functions.

Conventions:

- The result `None` stands for a C# `null` or for an exception that the source catches.
- Boolean parameters such as `closeFails` and `created` stand for the outcome of a stack call that the model cannot see.
- In the date decoder, the error kinds follow the order in which the C# code evaluates, byte 0 first. A missing byte is `IndexOutOfRange`. A non-decimal nibble is `FormatError`. A date the constructor rejects is `ArgumentOutOfRange`.

Facts about the code that the model keeps:

- Milliseconds are `10 * BCD(byte 6) + the high nibble of byte 7`. The low nibble, the weekday, is ignored (`OpcUaClient/DataConverter.cs:19-23`). `ExampleDecodes` decodes `[23,06,15,10,30,45,05,21]` to 10:30:45.052.
- The fields are read in order, so a non-decimal nibble in an early byte throws before a later field is range-checked. `ExampleNonDecimal` fails with `FormatError` at the hour byte `0x0A` (`OpcUaClient/DataConverter.cs:16`).
- The year is always `2000 + BCD(byte 0)` (`OpcUaClient/DataConverter.cs:13`). No byte maps to a year before 2000.
- Any failing discovery step gives a null endpoint list, never a partial one (`OpcUaClient/OpcUaClient.cs:382-387`).
- The keep-alive handler only logs. Its reconnect code is commented out (`OpcUaClient/OpcUaClient.cs:155-171`).
- `ReadValues` reports failure as `null`, and `WriteValues`/`WriteUDT` as `false` with a null status list (`OpcUaClient/OpcUaClient.cs:228-232`, `:281-286`).

## Model

| member | source | states |
|---|---|---|
| NumberFormat.X2 | OpcUaClient/DataConverter.cs:13-20 | `ToString("X2")`: two upper-case hex digits, high nibble first; stated by ParseX2, ParseX2High and HexDumpLayout |
| NumberFormat.ParseDecimal | OpcUaClient/DataConverter.cs:13-21 | the decimal parse of `Convert.ToInt32`/`Convert.ToByte`/`byte.Parse`; stated by ParseDecimalSucceeds and ParseX2 |
| NumberFormat.ParseDecimalSucceeds | OpcUaClient/DataConverter.cs:13-21 | the decimal parse succeeds exactly on non-empty strings of digits 0-9 |
| NumberFormat.ParseX2 | OpcUaClient/DataConverter.cs:13-19 | parsing the "X2" text of a byte as decimal succeeds iff both nibbles are 0..9, and yields 10*(b/16) + b%16 |
| NumberFormat.ParseX2High | OpcUaClient/DataConverter.cs:20-21 | parsing the first "X2" character yields the high nibble iff it is 0..9 |
| DataConverter.DaysInMonth | OpcUaClient/DataConverter.cs:25 | a month has 28..31 days |
| DataConverter.DaysInYear | OpcUaClient/DataConverter.cs:25 | the month lengths add up to 366 in Gregorian leap years and 365 otherwise |
| DataConverter.ValidDateTime | OpcUaClient/DataConverter.cs:25 | the argument check of the `DateTime` constructor (year 1..9999, Gregorian day of month, time of day, ms < 1000); used by DecodeSpec and the Example lemmas |
| DataConverter.DecimalField | OpcUaClient/DataConverter.cs:13-19 | one field: success iff the byte exists and is BCD, value BCD(b) in 0..99; otherwise IndexOutOfRange for a missing byte, FormatError for a non-decimal nibble |
| DataConverter.HighDigitField | OpcUaClient/DataConverter.cs:20-21 | the milliseconds unit digit is the high nibble of byte 7; IndexOutOfRange if missing, FormatError if it is A..F |
| DataConverter.ReadFields | OpcUaClient/DataConverter.cs:13-22 | the eight reads in source order, stopping at the first exception; stated by ReadFieldsSpec |
| DataConverter.GetDateTime | OpcUaClient/DataConverter.cs:11-28 | `GetDateTime` itself: the reads, then the `DateTime` constructor; stated by DecodeSpec, BadNibbleFails, ShortInputFails, IgnoresWeekdayAndTail, DecodeEncode and DecodeInjective |
| DataConverter.ReadFieldsSpec | OpcUaClient/DataConverter.cs:13-22 | reading the fields succeeds iff every nibble read is decimal, and yields year 2000+BCD(b0), BCD of bytes 1..5, ms 10*BCD(b6)+high nibble of b7 |
| DataConverter.DecodeSpec | OpcUaClient/DataConverter.cs:11-28 | GetDateTime succeeds iff the value is well formed and the DateTime constructor accepts the fields; the result is the nibble reading, year in 2000..2099, ms in 0..999; a valid layout with a bad date gives ArgumentOutOfRange |
| DataConverter.BadNibbleFails | OpcUaClient/DataConverter.cs:13-21 | with 8 or more bytes, a non-decimal nibble in bytes 0..6 or the high nibble of byte 7 gives FormatError |
| DataConverter.ShortInputFails | OpcUaClient/DataConverter.cs:13-21 | fewer than 8 bytes always fail: IndexOutOfRange if all present bytes are BCD, else FormatError |
| DataConverter.IgnoresWeekdayAndTail | OpcUaClient/DataConverter.cs:20-23 | the low nibble of byte 7 and bytes after index 7 do not affect the result |
| DataConverter.DecodeEncode | OpcUaClient/DataConverter.cs:11-28 | every valid date of 2000..2099, encoded in the S7 layout with any weekday nibble, decodes to itself |
| DataConverter.DecodeInjective | OpcUaClient/DataConverter.cs:11-28 | two values that decode to the same date agree on bytes 0..6 and the high nibble of byte 7 |
| DataConverter.LeapYearsOfTheCentury | OpcUaClient/DataConverter.cs:25 | for decodable years 2000..2099 the Gregorian leap rule is divisibility by 4 |
| DataConverter.February29IsLeap | OpcUaClient/DataConverter.cs:25 | a decoded 29 February lies in a year divisible by 4 |
| DataConverter.ExampleDecodes | OpcUaClient/DataConverter.cs:11-28 | [23,06,15,10,30,45,05,21] decodes to 2023-06-15 10:30:45.052 |
| DataConverter.ExampleNonDecimal | OpcUaClient/DataConverter.cs:16 | an hour byte 0x0A gives FormatError |
| DataConverter.ExampleSecond60 | OpcUaClient/DataConverter.cs:25 | second 60 gives ArgumentOutOfRange |
| DataConverter.ExampleFebruary29Of2023 | OpcUaClient/DataConverter.cs:25 | 29 February 2023 gives ArgumentOutOfRange |
| DataConverter.ExampleFebruary29Of2024 | OpcUaClient/DataConverter.cs:25 | 29 February 2024 decodes |
| Model.Severity | OpcUaClient.Model/OpcValue.cs:43 | the severity of a StatusCode is its top two bits, 0..3 |
| Model.IsGood | OpcUaClient.Model/OpcValue.cs:43 | `StatusCode.IsGood`: severity Good; stated by GoodCodes |
| Model.GoodCodes | OpcUaClient.Model/OpcValue.cs:43 | a code is good iff it is below 0x40000000; Bad codes are never good |
| Model.HexDump | OpcUaClient.Model/OpcValue.cs:53-55 | the text the byte loop builds; stated by HexDumpLayout and HexDumpRoundTrip, and ValueStr's loop is proved equal to it |
| Model.Render | OpcUaClient.Model/OpcValue.cs:53-59 | the text of each kind of value (hex dump, string itself, given text; null throws); ValueStr is proved equal to it |
| Model.HexDumpLayout | OpcUaClient.Model/OpcValue.cs:53-55 | a dump of n bytes has 3n characters: the upper-case high and low hex digits of byte i at 3i and 3i+1, a space at 3i+2 |
| Model.HexDumpRoundTrip | OpcUaClient.Model/OpcValue.cs:53-55 | reading the dump back gives the bytes |
| Model.OpcValue.constructor | OpcUaClient.Model/OpcValue.cs:13-16 | the parameterless constructor leaves a null value, code 0 and Status false, so Status == IsGood(code) does not hold |
| Model.OpcValue.FromResult | OpcUaClient.Model/OpcValue.cs:18-22 | stores the value unchanged, sets the code, and sets Status == IsGood(code) |
| Model.OpcValue.SetStatusCode | OpcUaClient.Model/OpcValue.cs:37-45 | after the setter, code == v and Status == IsGood(v); Value is unchanged |
| Model.OpcValue.SetStatus | OpcUaClient.Model/OpcValue.cs:35 | the public Status setter changes only Status |
| Model.OpcValue.SetValue | OpcUaClient.Model/OpcValue.cs:33 | the public Value setter changes only Value |
| Model.OpcValue.ValueStr | OpcUaClient.Model/OpcValue.cs:47-62 | the loop builds the hex dump (length 3n, empty for no bytes); a string renders as itself; null throws |
| Model.OpcValue.ToString | OpcUaClient.Model/OpcValue.cs:64-67 | "Val: " + ValueStr + ", Status: True/False"; the text ends in "True" iff Status |
| Client.EndpointsOf | OpcUaClient/OpcUaClient.cs:372-379 | the endpoints of a URL list exist iff every URL answers |
| Client.EndpointsOfServers | OpcUaClient/OpcUaClient.cs:370-380 | the endpoints of a server list exist iff every server has its URL collection and every URL answers |
| Client.DiscoveredEndpoints | OpcUaClient/OpcUaClient.cs:362-390 | the list `ListEndpoints` returns; ListEndpoints is proved equal to it, and EndpointsOfServers and NoAnswerStops state when it is null |
| Client.FindEndpoint | OpcUaClient/OpcUaClient.cs:121 | the result is the first endpoint with the requested mode; None iff no endpoint has it |
| Client.ChosenEndpoint | OpcUaClient/OpcUaClient.cs:118-121 | the endpoint `Connect` opens a session on; Connect's contract is stated with it, and FindEndpoint states the first-match rule |
| Client.NoAnswerStops | OpcUaClient/OpcUaClient.cs:370-387 | one server without an answer makes the whole discovery null |
| Client.Session.Create | OpcUaClient/OpcUaClient.cs:135-143 | a created session is on the chosen endpoint, connected and not disposed |
| Client.Session.Close | OpcUaClient/OpcUaClient.cs:180 | a closed session is no longer connected |
| Client.Session.Dispose | OpcUaClient/OpcUaClient.cs:182-185 | a disposed session is not connected |
| Client.OpcUaClient.constructor | OpcUaClient/OpcUaClient.cs:22-39 | a new client keeps its configuration and has no session |
| Client.OpcUaClient.Connected | OpcUaClient/OpcUaClient.cs:51 | true only with a session that is connected, and hence, under the Session.Valid assumption, not disposed |
| Client.OpcUaClient.NotificationServerCertificate | OpcUaClient/OpcUaClient.cs:60-85 | accepted iff the thumbprint is in the root store or untrusted certificates are auto-accepted; Accept is untouched when the store throws, or when the configuration is null and the thumbprint is not in the store |
| Client.OpcUaClient.ListEndpoints | OpcUaClient/OpcUaClient.cs:362-390 | the nested loops give the in-order concatenation of every URL's endpoints for every server, and null iff any step fails |
| Client.OpcUaClient.Disconnect | OpcUaClient/OpcUaClient.cs:174-192 | no session: nothing changes; otherwise the session is closed and disposed unless Close throws; the field is never cleared |
| Client.OpcUaClient.Connect | OpcUaClient/OpcUaClient.cs:96-153 | without a configuration nothing changes; a live session is disconnected before discovery, and an already disposed session, or one whose Close throws, is left as it was; a new session on the first endpoint with the requested mode replaces it only if one exists and creation succeeds; otherwise the field is unchanged |
| Client.OpcUaClient.ReadValues | OpcUaClient/OpcUaClient.cs:199-235 | success iff there is a session, the read answers, the answer has a value and a non-null ServiceResult for every node; then one OpcValue per node, element i built from values[i] and the code of statusCodes[i] |
| Client.OpcUaClient.BuildWriteValues | OpcUaClient/OpcUaClient.cs:255-268 | item i writes the Value attribute (13) of node i, as a Variant or as an ExtensionObject keyed by the node id |
| Client.OpcUaClient.AggregateStatus | OpcUaClient/OpcUaClient.cs:270-279 | status[i] == IsGood(results[i]); ret == IsGood(header) and every status; null if the answer is short |
| Client.OpcUaClient.WriteValues | OpcUaClient/OpcUaClient.cs:237-289 | the batch is sent iff the lengths match and there is a session; it holds one Variant item per node; status[i] is the goodness of result i and ret is the header's goodness and-ed with every flag; false/null when no write is issued or the answer is short |
| Client.OpcUaClient.WriteUDT | OpcUaClient/OpcUaClient.cs:291-351 | as WriteValues, with each value wrapped in an ExtensionObject whose type id is the node id |

## Left out

- The client constructor's configuration loading and application-certificate check. This is stack I/O. The model's constructor takes the loaded configuration, which may be null.
- The keep-alive handler (`OpcUaClient/OpcUaClient.cs:155-171`). It only logs, and its reconnect code is commented out.
- `CertificateValidator_CertificateValidation`, which only forwards to the handler. The repeated `+=` registration on every `Connect` is also left out. Which certificates `Session.Create` presents to the handler is stack behaviour.
- All logging.
- `async`/`await`. `Connect` is modelled as a sequential step.
- X509 store access. The store becomes the set of thumbprints of its valid certificates. `certCol.Capacity > 0` is read as "a matching certificate was found".
- `StatusCode.IsGood` is stack code that is not part of this model. It is modelled as the severity rule of section 7.34 of OPC UA Part 4: the top two bits are 00.
- The construction of NodeId, Variant, ExtensionObject and ExpandedNodeId. Only the shape of each request item is kept. Exceptions from these constructors fall under the stack answering `None`.
- `Value.ToString()` for arbitrary objects. It is taken as the given text `Other(rendered)`.
- A null `byte[]` passed to `GetDateTime`, and null list arguments. These are NullReferenceExceptions and are not modelled.
- Signs and white space accepted by the .NET decimal parsers. They never occur in "X2" text.
- The range check of `Convert.ToByte`. Two decimal digits never exceed 99.
- Client.OpcUaClient.ReadValues: the read answer is a parameter that does not depend on whether the session is still connected. A closed session appears only as an answer of `None`.
- Client.Session.Valid: the stack's `Session` is assumed never to be connected once disposed. The source does not show that class. `Client.OpcUaClient.Connected` ensures a non-disposed session only because of this assumption.
- Client.OpcUaClient.Connected: its clause "a connected session is not disposed" rests on the `Session.Valid` assumption above; the source at `OpcUaClient/OpcUaClient.cs:51` only tests `session.Connected`.
- `m_Timeout` (5000 ms, `OpcUaClient/OpcUaClient.cs:42`), passed to `Session.Close`. Timing is not modelled, so the value has no effect here.
- A null response header or null result collection from `session.Write`. It is folded into the `write` answer `None`.
- Client.Session.Close: the stack's own effect of `Close` on `Disposed` is not visible. The model's `Close` only clears `connected`, and `Disconnect` then disposes.

# SIIP: a verified model

SIIP replaces DNS and certificate authorities with a blockchain: a Substrate pallet stores certificates
(domain, IP address, public key), miners earn fees and a shrinking reward, and an HTTP proxy resolves domains
on chain and forwards traffic. This project models those parts in Dafny and proves what they keep.

| file | what it models |
|---|---|
| Text.dfy, Headers.dfy | byte strings, searching and splitting, header names, the ordered header dictionary |
| Sockets.dfy | the network (adversarial slices, then end of stream) and the rewindable buffered socket |
| HttpSpec.dfy | what the message parsers compute, as functions of the whole stream |
| HttpParse.dfy, HttpMessages.dfy | the parsers as loops over a socket, proved to compute those functions for every cut |
| HttpLaws.dfy | printers and parsers undo each other; exactly which streams parse |
| BodyCuts.dfy | what a body reader gets for every way of cutting the stream, and when that is exactly the message |
| Reframing.dfy | URLs, header forwarding, request and reply re-framing, the request handler |
| ProxyLaws.dfy | from received header lines to sent bytes: framing, requests, replies, stated outright |
| Relay.dfy | the two-way relay loop: state machine, class and loop |
| Criteria.dfy, KeyText.dfy | the field validators and the languages they accept; key text and its round trips |
| Pallet.dfy, PalletRules.dfy | the certificate pallet; when each call succeeds, its error, what it stores |
| PalletRuns.dfy | what holds over all runs of the pallet |
| Resolver.dfy | the cache in front of the chain |
| Ledger.dfy | fees, inflationary reward, supply |
| Pow.dfy | seals, mining, verification, the difficulty threshold |

Conventions. A byte string of the wire is a `string` whose character n stands for byte n; theorems range over all
strings, so over all byte strings. A Python exception or a Rust error is a value (`Malformed`, `None`, `Failure`).
Methods that change state (sockets, message objects, the relay, the pallet, the cache, the ledger) are classes whose
methods are proved equal to specification functions; the theorems are about those functions, and for each operation
one of them says what the function is without naming it or its helpers. The platform's UTF-8
decoding, `is_uppercase`, JSON validity, the hash function and the random nonces are parameters.

Where the code differs from its comments or intent, the model follows the code, and a lemma says so:

- The hop-by-hop list names `TE`, but parsed keys are capitalised to `Te`: exactly that header survives the filter
  (`HopByHopSurvivors`, `TeIsForwarded`).
- A Connection header that names Content-Length removes the framing of the forwarded body: re-framing keeps the body
  if and only if that does not happen or there is no body (`RequestReframing`, `LengthCanBeDropped`).
- A chunked reader does not look at the two bytes after a chunk's data (`DechunkShape`).
- A body reader takes the bytes received together with the end of its message: a counted reader adds them to the body
  (`CountedSwallows`), a chunked reader decodes them as further chunks and may fail (`ChunkedStumbles`). It is exact if
  and only if a received piece ends where the message ends (`ExactAtBoundary`); for every cut, if and only if there is
  no body, nothing follows, or the announced length is zero (`ExactForEveryCut`).
- `HttpResponse.parse` (proxy/httpparse.py:256) calls the request parser, so a reply has no status code to print and
  is framed as a request would be (`RequestParserOnReply` says when that is the same framing). The model composes
  `parse_header` and `parse_body` of the response instead (`HandleReply`).
- In a URL without protocol, "://" in the query is taken for the end of one (`UrlRoundTrip`, `UrlInQuery`).
- "Never sent anything" is reported for every stream without a line break, empty or not (`HeadExtend`).
- `modify_certificate` cleans only the list of the new address, so the old address keeps the replaced certificate
  (`StaleEntryRemains`); `MirrorStep` and `MirrorExactly` say when the index is exact.
- A cached certificate is served after its domain has been changed or removed (`CachedIsFresh`, `StaleAnswer`).
- A domain such as `.com` passes the "Subdomain must be at least 1 character long" criterion, which compares with a
  top-level domain that is still empty (`SubdomainRedundant`, `EmptySubdomainPasses`); an accepted domain has a
  subdomain unless its only period is its first character (`SubdomainPresent`).
- `check_key` lets a lone last digit through, and then the proxy cannot resolve the domain (`LoneDigitPasses`,
  `ResolvesExactly`).
- The reward stops at a gap of 999 base units, never reaching MAX_TOKENS (`ExactLimit`).
- A seal followed by further bytes is accepted like the seal itself (`TrailingBytes`).

## Model
| member | source | states |
|---|---|---|
| Sockets.BufferedSocket.Recv | proxy/httpparse.py:11-22 | the bytes returned followed by the bytes still readable are the bytes readable before; empty exactly at the end of the stream |
| Sockets.RecvLength | proxy/httpparse.py:11-22 | one recv returns as much of the buffer and one slice as there is room for |
| Sockets.ResultsAreCut | proxy/httpparse.py:11-22 | calling recv until the end returns nonempty pieces of at most 4096 bytes that make up the stream |
| Sockets.EveryCutHappens | proxy/httpparse.py:11-22 | and every such way of cutting a stream is what some network delivers |
| Sockets.BufferedSocket.Rewind | proxy/httpparse.py:24-25 | bytes put back are read again first |
| Text.SplitMeaning | proxy/proxy.py:237 | the parts of a split are exactly the stretches between separators or ends |
| Text.StripMeaning | proxy/proxy.py:238 | stripping gives exactly what is left without ASCII white space at both ends |
| Text.NumeralMeaning | proxy/httpparse.py:152-169 | what a decimal or hex digit is worth, and what a further digit does to a numeral |
| Text.AsciiCase | proxy/httpparse.py:31-44 | the 26 letters, and no other character, have two cases |
| Headers.CapitalizeChars | proxy/httpparse.py:31-32 | upper case at the front and after each hyphen, lower case elsewhere |
| Headers.CapitalizeMeaning | proxy/httpparse.py:31-32 | capitalising is idempotent and identifies two header names exactly when they are equal ignoring ASCII case |
| Headers.HeaderMapMeaning | proxy/httpparse.py:105-110 | merging received lines in order leaves under each name the comma-join, in arrival order, of the values of all lines with that name in any case; no such line, no such key, and every key is capitalised |
| Headers.PutNames | proxy/httpparse.py:107-110 | overwriting moves no key, a new key comes last |
| HttpParse.ConsumeLines | proxy/httpparse.py:94-112 | taking complete lines off the buffer leaves the meaning of buffer plus unread stream unchanged, whatever is still unread |
| HttpParse.ReadHead | proxy/httpparse.py:76-119 | for every stream and every cut the outcome (message, nothing sent, closed, malformed) is the one of the whole stream, and on success exactly the bytes after the blank line remain readable |
| HttpMessages.SlicingDoesNotMatter | proxy/httpparse.py:11-119 | two sockets delivering the same bytes in different slices give the same outcome and leave the same bytes |
| HttpMessages.HttpRequest.ParseHeader | proxy/httpparse.py:76-119 | a request object holding the parsed message, or none, as the stream decides |
| HttpMessages.HttpResponse.ParseHeader | proxy/httpparse.py:208-252 | the same for responses: a numeric status code is required and a missing first line is an unexpected close |
| HttpLaws.HeadShape | proxy/httpparse.py:87-112 | a head that parses is a three-part first line, raw header lines, a blank line and the unread rest, and its dictionary is those lines merged |
| HttpLaws.ParseRaw | proxy/httpparse.py:87-112 | conversely every stream of that shape parses to exactly those parts |
| HttpLaws.HeadMeaning | proxy/httpparse.py:105-110 | in a parsed message each key holds the comma-joined values of the received lines with that name in any case |
| HttpLaws.HeadExtend | proxy/httpparse.py:80-119 | more input never changes a parsed or malformed head, it only adds to the unread rest; nothing was sent exactly when there is no line break |
| HttpLaws.MalformedExactly | proxy/httpparse.py:87-105 | a head is malformed exactly when its first line has fewer than two spaces, or a reply's status code is not a numeral, or a header line before the blank line lacks ": " |
| HttpLaws.ParsePrinted | proxy/httpparse.py:76-119 | parsing a printed message gives the message back and leaves what follows it |
| HttpParse.ConsumeChunks | proxy/httpparse.py:149-167 | the chunk loop with its index arithmetic computes the recursive decoder `ChunkLoop`, which goes on past the last chunk |
| BodyCuts.LoopTakesChunk | proxy/httpparse.py:149-167 | the loop takes every whole chunk, before and after the last one |
| BodyCuts.LoopStops | proxy/httpparse.py:149-157 | and stops where no chunk is whole, with an error at a line that is not a size |
| HttpParse.ReadBody | proxy/httpparse.py:129-181 | status, body and the pieces left unread are a function of the received pieces, for every framing |
| HttpMessages.HttpRequest.ParseBody | proxy/httpparse.py:129-181 | the request's framing headers decide the body; an early close and a malformed body are errors, and where the stream alone decides, the body and what stays readable are those of the stream |
| HttpMessages.HttpResponse.ParseBody | proxy/httpparse.py:260-316 | status codes below 200, 204 and 304 have no body; otherwise framing headers or the close decide, and an early close is not an error; exact in the same way |
| BodyCuts.BodyAnswer | proxy/httpparse.py:129-181 | for every framing and every cut: an early close gives what arrived, a malformed body is reported, and a complete message is read together with the rest of the piece in which it ends |
| BodyCuts.ExactAtBoundary | proxy/httpparse.py:149-173 | a complete message is read exactly, what follows it staying unread, if and only if a piece ends where the message ends |
| BodyCuts.ExactForEveryCut | proxy/httpparse.py:133-173 | it is read exactly for every cut if and only if it has no body, nothing follows it, or its announced length is zero |
| BodyCuts.InexactCut | proxy/httpparse.py:149-173 | in all other cases the cut that keeps the end of the message and the next byte together is read wrongly |
| BodyCuts.CountedSwallows | proxy/httpparse.py:168-173 | a concrete counted body that swallows a byte of the next message |
| BodyCuts.ChunkedStumbles | proxy/httpparse.py:149-167 | a concrete chunked body whose reader takes the next request line for a chunk size and fails |
| BodyCuts.LastMessage | proxy/httpparse.py:129-181 | a message that ends its stream is read completely from every cut |
| BodyCuts.ChunkedRoundTrip | proxy/httpparse.py:129-181 | from every cut of an encoded body the reader gives the concatenation of its chunks and leaves nothing |
| HttpLaws.DechunkEncoded | proxy/httpparse.py:149-167 | decoding the encoding of any list of chunks, sizes in any hex spelling and data containing anything, gives their concatenation and the rest of the stream |
| HttpLaws.DechunkShape | proxy/httpparse.py:149-167 | conversely a stream on which decoding completes is an encoding of chunks with any two bytes after each |
| HttpLaws.DechunkAfter | proxy/httpparse.py:149-167 | chunks at the front of a stream are taken one by one, their data in order |
| HttpLaws.DechunkStops | proxy/httpparse.py:149-157 | decoding that does not complete has taken chunks up to a stream too short for the next, or up to a line that is not a hex number |
| Reframing.UrlRoundTrip | proxy/httpparse.py:38-60 | a URL assembled from host and optional protocol, port and uri parses to those parts and the defaults; without a protocol if and only if the uri does not contain "://" |
| Reframing.UrlRefused | proxy/httpparse.py:55-58 | a URL is refused exactly when its host part has a colon but is not a host, one colon and a numeral |
| Reframing.UrlInQuery | proxy/httpparse.py:41-46 | a concrete URL without protocol whose query hides its host |
| Reframing.UrlPrintable | proxy/httpparse.py:38-60 | the host and uri taken from a request line fit into a request line and header again |
| Reframing.ForwardHeaders | proxy/proxy.py:230-241 | the sets and pops of the handler compute the forwarded dictionary, order kept |
| Reframing.ForwardGet | proxy/proxy.py:225-241 | a key is dropped exactly when Connection names it or it is one of the eight hop-by-hop names, Host and Content-Length are set, all else is intact |
| ProxyLaws.ConnectionKeysMeaning | proxy/proxy.py:236-238 | Connection names a key exactly when it is, capitalised, one of the trimmed parts of its comma-separated value |
| ProxyLaws.CloseAndXA | proxy/proxy.py:236-238 | "Connection: close, X-A" names Close and X-A and nothing else |
| ProxyLaws.ForwardNames | proxy/proxy.py:230-241 | the headers sent keep the order received; Host and Content-Length come last where they are new |
| Reframing.HopByHopSurvivors | proxy/proxy.py:240-241 | of all spellings of all listed hop-by-hop names exactly a TE header that Connection does not name is forwarded |
| Reframing.TeIsForwarded | proxy/proxy.py:240-241 | a concrete TE header that is forwarded |
| Reframing.RequestReframing | proxy/proxy.py:224-244 | the forwarded request parses to the client's method and version, the uri of the URL and exactly the forwarded headers; its body is the body read if and only if there is none or Connection does not name Content-Length |
| Reframing.LengthCanBeDropped | proxy/proxy.py:236-238 | a concrete request whose body loses its framing |
| Reframing.RequestBodyPreserved | proxy/proxy.py:224-244 | whatever body was read from whatever cut, and however the forwarded bytes are cut, their reader gets exactly that body and nothing is left over, if and only if there is none or Connection does not name Content-Length |
| Reframing.ReplyGet | proxy/proxy.py:272-275 | a reply carries the length of its body, no transfer coding, and every other header unchanged |
| Reframing.ResponseReframing | proxy/proxy.py:272-277 | whatever framing the server used, the reply parses to the same version, status code and reason and to the body that was read |
| Reframing.ReplyBodyPreserved | proxy/proxy.py:272-277 | the same for replies, without exception |
| Reframing.RequestParserOnReply | proxy/httpparse.py:254-258 | the request parser reads the head of a reply as the response parser does, and frames the body the same way if and only if the status forbids a body exactly when no header announces one |
| Reframing.SendMessage | proxy/siip_requests.py:70-78 | the step-by-step printer sends first line, headers in order, blank line and body |
| Reframing.HandleHttp | proxy/proxy.py:224-244 | sends the client's method, the uri of the URL, the client's version, the forwarded headers and the body, or nothing when the URL does not parse |
| Reframing.Handle | proxy/proxy.py:279-292 | the outcome (nothing, tunnel, failure, request sent on) and the bytes sent are a function of the stream and of how its body was cut |
| Reframing.HandlingByStream | proxy/proxy.py:279-292 | for every cut a truncated or malformed body is not sent on, and a message that ends its stream, has no body or announces length zero is sent on with its own body |
| ProxyLaws.SentRequest | proxy/proxy.py:224-244 | whatever is sent on parses, at its receiver, to the client's method and version and the uri of its URL, with each header dropped, set or kept as listed, and the body read as the rest |
| ProxyLaws.HandlingExactly | proxy/proxy.py:279-292 | nothing exactly without a line break, a tunnel exactly for CONNECT, sent on exactly when head, URL and body can be read; otherwise nothing is sent |
| ProxyLaws.FramingOf | proxy/httpparse.py:147-177 | from the received lines: chunked when the joined Transfer-Encoding values are "chunked" in any case, else a numeral Content-Length counts, another is an error, none means no body; for replies, none below 200, for 204 and 304, and up to the close without either header |
| ProxyLaws.ChunkedRequest | proxy/httpparse.py:147-167 | a request with chunked lines is sent on with the data of its chunks, from every cut when it ends the stream; cut off or with a bad size it fails |
| ProxyLaws.CountedRequest | proxy/httpparse.py:168-181 | otherwise a Content-Length of n means the first n bytes, fewer or a non-numeral fail, and no length means no body |
| Reframing.HandleReply | proxy/proxy.py:272-277 | the server's reply is read, re-framed and printed to the client; nothing is sent when it is malformed or ends inside its head |
| Reframing.ReplyByStream | proxy/proxy.py:272-277 | for every cut a malformed body gives no reply, and a body ended by the close, or last in its stream, or empty, is the body of the reply |
| ProxyLaws.SentReply | proxy/proxy.py:272-277 | whatever the client gets parses to the version, code and reason of the server's reply, its headers without the transfer coding and with the length of the body, and the body; nothing is sent exactly when head or body is malformed or the head is cut off |
| ProxyLaws.BodilessReply | proxy/httpparse.py:279-282 | codes below 200, 204 and 304, and no others, mean no body whatever the headers say |
| ProxyLaws.ChunkedReply | proxy/httpparse.py:283-303 | a chunked reply arrives as the data of its chunks, also when the server closes early; a bad size yields no reply |
| ProxyLaws.CountedReply | proxy/httpparse.py:304-316 | a reply with a Content-Length of n arrives with its first n bytes, or with fewer when the server closes; without it everything up to the close is the body |
| Relay.RelaySafety | proxy/proxy.py:133-216 | at every point of every run, in each direction, bytes received are bytes sent on followed by bytes pending, and with logging on the recorded line is the received stream up to its first CRLF |
| Relay.RelayDelivers | proxy/proxy.py:143-222 | when the loop exits everything the reads yielded has been sent on in both directions and one read was empty |
| Relay.RelayExactly | proxy/proxy.py:157-216 | after any rounds the bytes sent are the first so many of the bytes read, a side counts as closed exactly when a read from it was empty, and the recorded line is the first of its stream |
| Relay.RelayStops | proxy/proxy.py:143 | the loop stops if and only if everything read has been sent on and a read was empty |
| Relay.EnabledExactly | proxy/proxy.py:144-156 | which rounds the environment may offer, in terms of bytes pending and arriving |
| Relay.FirstLineMeaning | proxy/proxy.py:184-189 | the recorded line is the part before the first CRLF, or everything |
| Relay.MeasureFalls | proxy/proxy.py:157-216 | twice the bytes to come plus the bytes pending plus the open sides falls by one for every byte received, byte sent and close |
| Relay.RelayTerminates | proxy/proxy.py:143-216 | with n bytes of input and progress in every round the loop makes at most 2n + 2 rounds |
| Relay.PassiveProxy.OneRound | proxy/proxy.py:157-216 | the loop body performs the modelled step: what was sent followed by what is pending grows by exactly the bytes read, and a side closes only by an empty read |
| Relay.PassiveProxy.Loop | proxy/proxy.py:143-216 | the loop stops only when nothing is pending and one side has closed |
| Criteria.ReportMeaning | node/pallets/siip/src/lib.rs:342-346 | a report contains "Err:" exactly when some criterion failed |
| Criteria.FieldVerdicts | node/pallets/siip/src/lib.rs:40-273 | the same for the reports of all five validators |
| Criteria.CheckKey | node/pallets/siip/src/lib.rs:205-273 | the character loop with its two flags builds the report of the two key criteria |
| Criteria.KeyFlags | node/pallets/siip/src/lib.rs:219-254 | the flags say whether all separators and all other characters are as required |
| Criteria.CheckIp | node/pallets/siip/src/lib.rs:137-174 | builds the report of the address criteria |
| Criteria.CheckDomain | node/pallets/siip/src/lib.rs:68-133 | builds the report of the domain criteria |
| Criteria.CheckName | node/pallets/siip/src/lib.rs:40-66 | builds the report of the name criteria |
| Criteria.CheckInfo | node/pallets/siip/src/lib.rs:177-202 | builds the report of the info criteria |
| Criteria.NameAndInfoValidation | node/pallets/siip/src/lib.rs:40-202 | the name check passes exactly for decodable nonempty text, the info check exactly for decodable JSON |
| Criteria.DomainValidation | node/pallets/siip/src/lib.rs:68-133 | the domain check passes exactly for decodable text under 64 characters without forbidden or uppercase characters and with a last section of 2 to 63 characters after a period |
| Criteria.DomainMeaning | node/pallets/siip/src/lib.rs:82-123 | that is: fewer than 64 characters, none of the twelve forbidden, none uppercase, and 2 to 63 of them after the last period |
| Criteria.SubdomainRedundant | node/pallets/siip/src/lib.rs:109-129 | the subdomain criterion never decides |
| Criteria.EmptySubdomainPasses | node/pallets/siip/src/lib.rs:109-129 | ".com" passes the domain check |
| Criteria.SubdomainPresent | node/pallets/siip/src/lib.rs:109-129 | an accepted domain has more than one character before its last section if and only if its only period is not its first character |
| Criteria.U8Language | node/pallets/siip/src/lib.rs:167 | the bounded digit fold accepts exactly an optional '+' and decimal digits with value at most 255 |
| Criteria.U8Meaning | node/pallets/siip/src/lib.rs:167 | that is: the numerals of 0 to 255, with or without a plus sign |
| Criteria.IpTextMeaning | node/pallets/siip/src/lib.rs:151-171 | the accepted addresses are exactly the period-joins of four such texts |
| Criteria.IpValidation | node/pallets/siip/src/lib.rs:137-174 | the address check passes exactly on that language |
| KeyText.KeyFlagsMeaning | node/pallets/siip/src/lib.rs:219-254 | the index arithmetic of the loop accepts exactly uppercase hex pairs separated by ':', the last possibly a lone digit |
| KeyText.KeyValidation | node/pallets/siip/src/lib.rs:205-273 | the key check passes exactly on that language |
| KeyText.SameText | proxy/siip_certificate.py:38-43 | the registration text and `pk_str` of a key are the same text |
| KeyText.RegisteredTextAt | proxy/siip_resolve.py:62-65 | that text has, for each byte, its two uppercase hex digits, the high one first, and colons between bytes |
| KeyText.KeyRoundTrip | proxy/siip_resolve.py:62-65 | for every key the registered text passes the key check and the certificate constructor recovers the key |
| KeyText.LoneDigitPasses | node/pallets/siip/src/lib.rs:219-254 | "A" passes the key check and cannot be read |
| KeyText.TextRoundTrip | proxy/siip_certificate.py:19-43 | an accepted text decodes exactly when it has whole pairs, and is then printed back unchanged |
| Pallet.SiipModule.ValidateFields | node/pallets/siip/src/lib.rs:341-346 | searching the five reports for "Err:" in order yields the error of the first field outside its language, none when all are inside |
| Pallet.SiipModule.RegisterCertificate | node/pallets/siip/src/lib.rs:330-370 | result and storage are those of the modelled call; a failed call changes nothing |
| Pallet.SiipModule.ModifyCertificate | node/pallets/siip/src/lib.rs:373-423 | the same for modify; it stores exactly the submitted fields, and reports no modification only when these are stored already |
| Pallet.SiipModule.RemoveCertificate | node/pallets/siip/src/lib.rs:426-452 | the same for remove |
| PalletRules.RegisterRules | node/pallets/siip/src/lib.rs:340-366 | register succeeds exactly when it is signed, its fields are valid and the domain is free, gives the error of the first failing check, and stores exactly the submitted fields |
| PalletRules.ModifyRules | node/pallets/siip/src/lib.rs:383-419 | on every reachable chain modify succeeds exactly when it is signed, its fields are valid, the domain is registered, the sender owns it and name, info, key or address differs; otherwise the error of the first failing check; it stores exactly the submitted fields and replaces the entries of the domain in the list of the submitted address alone |
| PalletRules.RemoveRules | node/pallets/siip/src/lib.rs:431-448 | remove succeeds exactly when it is signed, the domain is valid and registered and the sender owns it; otherwise the error of the first failing check |
| PalletRules.OthersAppend | node/pallets/siip/src/lib.rs:417 | retaining keeps the entries of other domains, in order |
| PalletRuns.ForeignCall | node/pallets/siip/src/lib.rs:330-452 | a call naming another domain changes nothing that storage says about this one |
| PalletRuns.OwnCall | node/pallets/siip/src/lib.rs:330-452 | on states that agree about a domain, a call naming it has the same result and leaves them agreeing |
| PalletRuns.Locality | node/pallets/siip/src/lib.rs:330-452 | after any run, the certificate of a domain and its entries in every reverse list are what running only the calls naming it gives |
| PalletRuns.Reordering | node/pallets/siip/src/lib.rs:330-452 | reorderings that keep the order of each domain's calls give the same forward map and the same reverse lists up to permutation |
| PalletRuns.AlwaysIndexed | node/pallets/siip/src/lib.rs:285-452 | in every reachable state each certificate is stored under its own domain and listed under its own address, and every listed entry carries that address |
| PalletRuns.StaleEntries | node/pallets/siip/src/lib.rs:415-419 | in every reachable state each listed entry is current or was replaced by an earlier address-changing modify |
| PalletRuns.MirrorStep | node/pallets/siip/src/lib.rs:361-448 | a call keeps the index an exact mirror if and only if it is not a successful modify that changes the address |
| PalletRuns.ExactIndex | node/pallets/siip/src/lib.rs:361-448 | on runs without such a modify every list holds exactly the current certificates with its address, once each |
| PalletRuns.StaleEntryRemains | node/pallets/siip/src/lib.rs:415-419 | registering a domain and moving it leaves the replaced certificate listed |
| PalletRuns.ListedExactly | node/pallets/siip/src/lib.rs:361-448 | after any run an entry is listed under an address once for every call that appended it there and was not followed by a modify to that address or a remove at it |
| PalletRuns.MirrorExactly | node/pallets/siip/src/lib.rs:361-448 | a run ends with an exact index if and only if no entry it appended has since been replaced or removed and not been cleaned from its list |
| PalletRuns.OwnerIsOpener | node/pallets/siip/src/lib.rs:351-413 | at every point of every run a domain is registered exactly when some register opened it since the last remove, and its owner is that call's sender |
| PalletRuns.OnlyOpenerChanges | node/pallets/siip/src/lib.rs:406-443 | every successful modify or remove was sent by that account |
| PalletRuns.AlwaysValidated | node/pallets/siip/src/lib.rs:342-390 | in every reachable state every stored certificate passes all field checks |
| Resolver.DecodeEncode | proxy/siip_certificate.py:10-49 | decoding an encoded certificate gives it back |
| Resolver.EncodedFields | proxy/siip_certificate.py:48-49 | a cache entry holds address and domain as they are and the key as lower-case hex |
| Resolver.Cache.Lookup | proxy/siip_resolve.py:20-44 | answer and cache are those of the modelled resolution |
| Resolver.CacheHistory | proxy/siip_resolve.py:20-44 | a domain is cached exactly when a resolution of it succeeded, with what the first one found; missing domains and failures are never cached |
| Resolver.AnswersAreFrozen | proxy/siip_resolve.py:20-44 | in any interleaving of pallet calls and resolutions the answer is what the chain held at the first successful resolution, and the uncached answer before it |
| Resolver.FreshUntilTouched | proxy/siip_resolve.py:20-44 | what is cached equals what the chain says until the domain is modified or removed |
| Resolver.CachedEqualsUncached | proxy/siip_resolve.py:20-44 | until then asking the cache and asking the chain are the same |
| Resolver.ResolvesExactly | proxy/siip_resolve.py:30-39 | on every reachable chain a registered domain resolves to its own address and key, unless its key text ends in a lone digit |
| Resolver.RegisteredResolves | proxy/siip_resolve.py:20-65 | a domain registered with the text of a key and not changed since resolves to its address and exactly that key, if and only if it was not resolved to anything else before |
| Resolver.CachedIsFresh | proxy/siip_resolve.py:20-44 | a cached answer is what the chain says if and only if the domain is registered with the address and the key text of that answer |
| Resolver.StaleAnswer | proxy/siip_resolve.py:20-44 | register, resolve, remove: the cache still answers, the chain does not |
| Ledger.GetBlockMiner | node/runtime/src/reward_miner.rs:6-17 | the account in the first pre-runtime item with engine "pow_" whose data decodes, none exactly when there is no such item |
| Ledger.MinerExactly | node/runtime/src/reward_miner.rs:6-17 | the miner is a given account if and only if such an item names it |
| Ledger.FeeEffect | node/runtime/src/reward_miner.rs:25-29 | a fee its payer has is taken from him and given to the author, or leaves the supply; otherwise nothing happens |
| Ledger.RewardEffect | node/runtime/src/lib.rs:270-277 | with an author a thousandth of what is missing to 10^18 is minted for him |
| Ledger.Balances.ChargeFee | node/runtime/src/reward_miner.rs:25-29 | a fee moves to the author, or is burnt when there is none |
| Ledger.Balances.InflationaryReward | node/runtime/src/lib.rs:270-278 | the reward step on the ledger |
| Ledger.Balances.ExecuteBlock | node/runtime/src/lib.rs:270-278 | a block is its fees and then its reward, both for the account in that item |
| Ledger.BlockEffect | node/runtime/src/reward_miner.rs:25-29 | with an author every collected fee goes from its payer to the author, who also gains a thousandth of the gap; without one nothing is minted and exactly the collected fees are burnt |
| Ledger.SupplyConservation | node/runtime/src/lib.rs:266-279 | over every run of blocks total issuance is the sum of the balances and never exceeds MAX_TOKENS |
| Ledger.RunGap | node/runtime/src/lib.rs:270-278 | over rewarded blocks, whatever their fees, the gap to MAX_TOKENS follows g - g/1000 |
| Ledger.GeometricBounds | node/runtime/src/lib.rs:274 | after n rewards 999^n g0 <= 1000^n gn and 1000^n (gn - 999) <= 999^n (g0 - 999), for every g0 |
| Ledger.ExactLimit | node/runtime/src/lib.rs:273-275 | from any gap of at least 1000 the gap falls strictly to exactly 999 in finitely many blocks and stays there |
| ProofOfWork.SealRoundTrip | node/consensus/sha3pow/src/lib.rs:25-30 | raw bytes decode to a seal exactly when their first 96 bytes are its encoding |
| ProofOfWork.SealBytes | node/consensus/sha3pow/src/lib.rs:25-30 | byte by byte: the difficulty least significant byte first, then work and nonce most significant byte first |
| ProofOfWork.ComputeMeaning | node/consensus/sha3pow/src/lib.rs:34-51 | the work is the hash of difficulty, pre-hash and nonce laid out like a seal |
| ProofOfWork.ComputeBinds | node/consensus/sha3pow/src/lib.rs:34-51 | the hashed bytes determine difficulty, pre-hash and nonce |
| ProofOfWork.VerifyExactly | node/consensus/sha3pow/src/lib.rs:67-98 | accepted bytes are exactly those starting with the encoding of the computed seal of some nonce whose work meets the difficulty |
| ProofOfWork.TrailingBytes | node/consensus/sha3pow/src/lib.rs:67-98 | bytes after the first 96 never change whether a seal is accepted |
| ProofOfWork.OneDifficulty | node/consensus/sha3pow/src/lib.rs:87-95 | the same bytes are never accepted under two difficulties |
| ProofOfWork.Mine | node/consensus/sha3pow/src/lib.rs:179-213 | the encoding of the first drawn nonce that meets the difficulty, none exactly when no draw does; what is returned verifies |
| ProofOfWork.MeetsBound | node/consensus/sha3pow/src/lib.rs:16-21 | no overflow means work at most floor((2^256 - 1) / d), or d = 0 |
| ProofOfWork.Threshold | node/consensus/sha3pow/src/lib.rs:16-21 | exactly floor((2^256 - 1) / d) + 1 hashes meet a difficulty d >= 1 |

## Left out
- Python `int()` leniency: sizes, lengths, ports and status codes are plain digits; signs, underscores, white space and prefixes count as malformed.
- The tunnel set-up, TLS, X.509, DNS, error pages and log lines other than the relay's recorded first line.
- The relay folds receiving and draining the TLS pending buffer into one step; an SSL error in the middle of draining is not modelled.
- The cache server is always reachable, and `plow` answers with the current certificate of one node or with nothing.
- Pallet events, weights and the unused `Sha3Algorithm` with its runtime-supplied difficulty.
- Balance transfers, existential deposits, fee computation and refunds: a fee is a given amount that its payer can or cannot pay.
- The user interface, the command-line clients and the node service: no properties of interest there.

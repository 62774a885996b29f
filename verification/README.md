# A model of the DNS feed tunnel

The program publishes a feed of posts over DNS. A Go server collects posts, encrypts them in
batches of ten, and answers TXT queries with pieces of the ciphertext; a browser client asks for
one piece after another, joins them, decrypts them and merges the batches into its list. A second
Go server hands out the key against an invite token. Encoder and decoder of every layer are
written separately, in Go and in TypeScript, so that what holds between them holds only if both
agree. This project models both sides and proves what they make of each other.

* **The tunnel.** `Base64Url`, `Chunking`, `Header`, `WireName`, `Address` and `Response` model one
  layer each, the imperative code as methods proved against specification functions, and prove
  each layer's decoder to be the inverse of its encoder, with the exact conditions where it is not
  always. `Exchange` puts one query and its answer together, `Client` models the fetch with its
  three attempts and three rounds, and `Tunnel` ends in `EndToEnd`: what is published is what is
  decoded, for every byte string, batch, padding draw, letter case and bytes behind the question;
  over the client's own queries, exactly when every part fits (`LineDeliversIff`). `Delivery` joins
  the cut into batches, the tunnel, the key path and the merge, up to `FeedArrives`.
* **Rotation.** `Rotation` and `Mixtures` interleave replacements of the server's cache with the
  rounds of a fetch. The client compares part number and total only, so it can assemble parts of
  different generations; the two modules say exactly which texts it can end with. `TwoGenerations`
  says when two generations can mix, `Attempts` what a fetch that gives up has seen.
* **Guards.** `RateLimit`, `TokenStore` and `TokenExchange` model the limiter, the allowlist and
  the order of the exchange's decisions, over whole runs and, for the allowlist, over interleaved
  transactions.
* **The feed store.** `PostStore`, `Ingest`, `SharedSource` and `Dateless` model the tables, one ingest, and
  rounds of up to ten concurrent ingests; `Timestamps` shows when comparing the date strings
  compares the moments; `Refresh` and `FeedMerge` model the cut into batches and the client's merge.
* **The key path.** `KeyPath` follows the master key string through both servers and the client,
  with the cryptographic functions as parameters, and says exactly when both ends have one key.

`Text`, `Wrappers` and `Decimal` hold strings, options and decimal numbers.

Where the code keeps less than its documents say, or less than its reader may expect, the model
follows the code:

* Two documents (`system-architecture.md:78`, `dns-feed-requirements.md:85`) have a token consumed
  when a key is issued. `server/cmd/authd/main.go:21` leaves that off unless asked for;
  `TokenExchange.SingleUseIff` states what follows.
* Single use under concurrency rests on the isolation of the database alone, since the number of
  rows changed by the update is not looked at: `TokenStore.DoubleUseWithoutIsolation`.
* A fetch that ends well can hold a text that was never published, as soon as two generations with
  equally many parts differ in two of them: `TwoGenerations.CanMixIff`, `Mixtures.GenerationsCanMix`.
* A source that is listed twice can move its cursor back: `SharedSource.CursorsNeverDecreaseIff`.
* A pruned post is inserted again by its source if and only if it has no date and the source yields a
  list: `Dateless.ComesBackIff`.
* Date strings stop comparing in time with the year 10000, which `Fri, 31 Dec 9999 23:00:00 -0500`
  becomes in UTC: against it only dates up to the year 1000 still compare:
  `Timestamps.FormatOrderIff`, `Timestamps.FormatOrderEnds`.
* The printer of numbers prints the least 64-bit number as a lone sign: `Decimal.IntTextReadsBack`.
* The merge drops a post whose source and time equal those of a post of another batch:
  `FeedMerge.MergeLosesNothingIff`.
* A master key string that a decoder reads as 32 bytes, or that holds a bar, surrounding white
  space or a leading byte order mark, gives the two ends different keys: `KeyPath.OpenedIff`.
* The limiter lets one key through up to one call less than twice its rate within one second:
  `RateLimit.RateBoundInSeconds`, `RateLimit.RateBoundIsReached`.

Parameters stand for what the model does not decide: random draws (padding, identifiers, nonces,
salts), clocks, the network between client and server, fetched feeds, the formats that read a
date, encryption of a batch, and the cryptographic functions.

## Model

| member | source | states |
|---|---|---|
| Delivery.FeedArrives | web/src/app/page.tsx:215-226 | at most a hundred posts, cut into batches that fit, encrypted, published, fetched by the client's own queries, decrypted, parsed and merged in any order with repeats: the feed ends with exactly the keys of the posts, and with exactly the posts in every order if and only if no two batches share a key |
| Delivery.BatchIsRead | web/src/app/page.tsx:215-219 | one batch that is kept, over any network that serves every part and loses no three rounds in a row: the fetch ends, and exactly the text that was encrypted is read if and only if both ends take token and master key the same way; otherwise nothing is |
| Delivery.RotatedBatchIsRead | web/src/app/page.tsx:215-219 | over every run of publications and rounds the client reads the text of one published generation or nothing, if the key opens no mixture that was not sealed |
| Delivery.ArrivedIs | web/src/app/page.tsx:264-267 | of the ten batches that are fetched, those that exist arrive as the groups they were made of, and the others add nothing |
| Tunnel.EndToEnd | server/cmd/thefeed/main.go:82-235 | for every nonempty byte string: encode, cut, serve, fetch part by part, join and decode gives back exactly those bytes, over any network that brings answers to fitting queries for each part, whatever the padding, the letter case, the bytes behind the question and the losses short of three rounds in a row |
| Tunnel.LineDeliversIff | server/cmd/thefeed/main.go:142-235 | over the client's own queries, whatever the random numbers: the fetch ends with exactly the published bytes if and only if every part, the short last one included, fits 255 characters and the limit; otherwise it ends with no text at all |
| Tunnel.FetchOverLine | web/src/lib/dns-fetcher.ts:58-115 | the client's own method, for a domain as configured, ends with exactly the published bytes and their number of parts if and only if every part fits |
| Tunnel.DomainIsClean | web/src/lib/dns-fetcher.ts:69 | cleaning leaves every domain as it is |
| Tunnel.LineDelivers | server/cmd/thefeed/main.go:217-235 | under a limit of 512 bytes it is enough that the three numbers have at most 27 digits and, with the name on the wire, at most 255 bytes |
| Tunnel.LineRound | server/cmd/thefeed/main.go:142-235 | one query of the client brings the part when it fits, and no readable header when it does not, with nothing assumed of its random numbers |
| Tunnel.LineIsReliable | server/cmd/thefeed/main.go:142-235 | a network that serves every part exists: the client's own queries, when every part fits |
| Tunnel.StuckBefore | web/src/lib/dns-fetcher.ts:67-114 | a single part that does not fit keeps the fetch from ever ending with a text |
| Tunnel.FetchSucceeds | web/src/lib/dns-fetcher.ts:67-103 | from any point of an undisturbed attempt the fetch ends with the joined chunks and their number |
| Tunnel.FullChunkFits | server/cmd/thefeed/main.go:217-235 | a full chunk under a limit of 512 bytes reaches the client if and only if the three numbers have at most 27 digits and, with the name on the wire, at most 255 bytes |
| Tunnel.ServedPartParses | web/src/lib/dns-fetcher.ts:161-169 | whatever query carried it, an answer that fits parses to the part that was asked for |
| Tunnel.PartArrives | web/src/lib/dns-fetcher.ts:82-95 | a part that arrives is stored in its place, and the last one completes the text |
| Exchange.ExchangeExact | server/cmd/thefeed/main.go:170-235 | exactly when a query for a part is answered, and that the client then reads the part that was asked for with the chunk the server holds, or no header at all |
| Exchange.ReplyToPart | server/cmd/thefeed/main.go:142-215 | the client receives the server's text untouched, in any letter case of the name |
| Exchange.AnswerTextOfPart | server/cmd/thefeed/main.go:170-191 | a name that carries a part is answered with that part's text, fitted to the room, or not at all |
| Exchange.OwnQuery | web/src/app/api/local-dns/route.ts:28-52 | the client's own packet is taken by the server for a TXT query that carries the part |
| Exchange.WarmupIsFirstPart | web/src/lib/dns-fetcher.ts:46 | the probe of a resolver is answered like a query for the first part of batch 0, unless a label of the domain names a batch |
| Exchange.ForeignIsSilent | server/cmd/thefeed/main.go:170-174 | a name that does not end in the domain gets no answer, whatever the cache holds |
| Response.BuildTXTResponse | server/cmd/thefeed/main.go:142-215 | the packet is the specified answer on every query and cache; in particular the size check at the end never rejects |
| Response.AssemblePacket | server/cmd/thefeed/main.go:193-214 | header, echoed question, name pointer, type, class, lifetime, length and text, rejected exactly when longer than the limit |
| Response.ResponseHeader | server/cmd/thefeed/main.go:196-201 | identifier kept, answer flags, one question, one answer, nothing else |
| Response.PacketLayout | server/cmd/thefeed/main.go:193-209 | every field of the answer, for every question and text: flags, counts, pointer, type, class, a lifetime of 15 seconds, lengths and text |
| Response.AnswerParses | server/cmd/thefeed/main.go:160-214 | for every answered query: identifier and question are kept, flags, counts and the lifetime of 15 seconds are as they should be, the packet is within the limit and its lengths add up, the pointer leads to the name asked for, and the client's reader returns exactly the server's text |
| Response.ReadQueryIff | server/cmd/thefeed/main.go:150-168 | a packet is taken for a query exactly when it has one question, made of a name, the type TXT and the class IN, whatever follows |
| Response.AnswerTextIff | server/cmd/thefeed/main.go:170-191 | a name gets a text exactly when it ends in the domain, its batch has the part and the unpadded text fits |
| Response.AnswerIff | server/cmd/thefeed/main.go:150-214 | a packet is answered exactly when it is such a query for such a name |
| Response.ParseFirstTXT | web/src/app/api/local-dns/route.ts:81-101 | the loop and the offsets read the first text of any packet whatever, or nothing |
| Response.FirstTXTIs | web/src/app/api/local-dns/route.ts:81-101 | of every packet whose question the server's parser could read, the client reads the first string of the first record behind it exactly when that is a TXT record that holds it |
| Response.SkipReadLabels | web/src/app/api/local-dns/route.ts:87-89 | the client's label loop stops at the zero where the server's parser does |
| Response.BuildTXTWithinCap | server/cmd/thefeed/main.go:217-235 | the shrinking loop yields the specified text for every draw and limit, or nothing |
| Response.DrawRange | server/cmd/thefeed/main.go:218-221 | the draws are exactly the numbers from the least to the greatest padding, or the least alone |
| Response.FitTextIsLargest | server/cmd/thefeed/main.go:222-234 | there is a text exactly when the unpadded one fits, and it has the largest padding up to the draw that fits |
| Response.FitTextUnique | server/cmd/thefeed/main.go:222-234 | the largest padding that fits determines the text |
| Response.BuildAnswerRdata | server/cmd/thefeed/main.go:344-352 | the character-string of the text cut at 255, its length first |
| Response.AppendUint16 | server/cmd/thefeed/main.go:387-391 | appends the number, high byte first |
| Response.AppendUint32 | server/cmd/thefeed/main.go:393-397 | appends the number, high half first |
| Response.BatchCache.constructor | server/cmd/thefeed/main.go:55 | the cache begins empty |
| Response.BatchCache.Set | server/cmd/thefeed/main.go:130-134 | the whole cache is replaced at once |
| Header.MatchComplete | web/src/lib/dns-fetcher.ts:161-169 | the scanner finds every match of the expression that begins where it stands, with the values of its numbers and its whole payload |
| Header.MatchSound | web/src/lib/dns-fetcher.ts:161-169 | whatever the scanner finds is a match of the expression |
| Header.LeftmostMatch | web/src/lib/dns-fetcher.ts:161-169 | the match that is taken is the leftmost one, and none is taken only if there is none anywhere |
| Header.TextExample | server/cmd/thefeed/main.go:186-223 | one text in full |
| Header.UncutTextParses | web/src/lib/dns-fetcher.ts:161-169 | part, total and chunk are read back whatever follows the dot, although the padding letter is a payload letter |
| Header.PaddedTextParses | server/cmd/thefeed/main.go:186-226 | the server's text parses to part, total and chunk exactly when the chunk is not empty and the cut at 255 leaves the dot in; otherwise to nothing |
| Header.EmptyPayloadNoMatch | web/src/lib/dns-fetcher.ts:161-169 | without a payload there is no match anywhere in the text |
| Header.NoDotNoMatch | web/src/lib/dns-fetcher.ts:161-169 | a text without a dot has no match anywhere |
| WireName.BuildTXTQuery | web/src/app/api/local-dns/route.ts:28-52 | header, trimmed nonempty labels with their lengths, zero, type and class |
| WireName.QueryHeader | web/src/app/api/local-dns/route.ts:29-33 | identifier high byte first, recursion desired, one question |
| Response.QueryFields | web/src/app/api/local-dns/route.ts:28-52 | every field of the client's packet: identifier, recursion desired, one question and nothing else, name, type and class |
| WireName.LabelsInOrder | web/src/app/api/local-dns/route.ts:35-38 | every piece of a name becomes a label in its place, unless it is blank |
| WireName.TrimIs | web/src/app/api/local-dns/route.ts:37 | trimming takes white space off both ends and nothing else |
| WireName.ParseQName | server/cmd/thefeed/main.go:354-371 | terminates within bounds on every packet, with the joined labels and the position behind the name, or the failure value |
| WireName.ReadLabelsIff | server/cmd/thefeed/main.go:354-371 | reading succeeds exactly on the encodings of lists of 1 to 63 byte labels, and consumes exactly the encoding |
| WireName.NameRoundTrip | web/src/app/api/local-dns/route.ts:35-51 | the labels of a query are read back by the server, four bytes before the end of the packet |
| WireName.QueryName | web/src/app/api/local-dns/route.ts:39-51 | the encoded name lies between the twelfth byte and the last four |
| Address.ParseBatchIndex | server/cmd/thefeed/main.go:237-258 | the first label that is a b before a digit decides, its run of digits wrapped at 64 bits |
| Address.ParsePartIndex | server/cmd/thefeed/main.go:260-280 | the first label that is a p before digits only, of value at least one, decides |
| Address.FirstBatchLabel | server/cmd/thefeed/main.go:237-258 | the first label that is a b before a digit gives the value of its whole run of digits, cut to 64 bits; without one the batch is 0 |
| Address.FirstPartLabel | server/cmd/thefeed/main.go:260-280 | the first label that is a p before digits only, of positive value, gives the part counted from 0; without one it is the first |
| Address.BatchOfName | server/cmd/thefeed/main.go:237-258 | the batch in the client's name is the batch the server reads, for every domain |
| Address.PartOfName | server/cmd/thefeed/main.go:260-280 | the part in the client's name is the part the server reads, counted from 0 |
| Address.AddressAgreement | server/cmd/thefeed/main.go:170-177 | in any letter case, and with or without a dot behind the configured domain, the server recognises the domain and reads the client's batch and part |
| Decimal.IntToString | server/cmd/thefeed/main.go:305-325 | the specified text for every 64-bit number; the buffer of 20 characters never runs out |
| Decimal.FillDigits | server/cmd/thefeed/main.go:313-319 | the digits end up in order at the end of the buffer |
| Decimal.IntTextReadsBack | server/cmd/thefeed/main.go:305-325 | a printed number reads back as itself exactly when it is not the least 64-bit number |
| Decimal.AtMost19Digits | server/cmd/thefeed/main.go:313-319 | no 64-bit number needs more than 19 digits |
| Decimal.DigitsOfValue | server/cmd/thefeed/main.go:315-319 | a digit string without leading zeros is the only printed form of its value |
| Decimal.WrapValueIs | server/cmd/thefeed/main.go:244-251 | wrapping at every digit is wrapping once at the end |
| Decimal.WrapValueOfDigits | server/cmd/thefeed/main.go:266-273 | a printed number below 2 to the 63rd is read back unchanged by the wrapping loop |
| Base64Url.B64UrlToBytes | web/src/lib/feed-crypto.ts:1-7 | the byte loop yields the forgiving decode of the padded text, or nothing where atob throws |
| Base64Url.DecodeEncode | web/src/lib/feed-crypto.ts:1-7 | the client's decoder inverts the server's unpadded encoder on every byte string |
| Base64Url.AlphabetIs | server/cmd/thefeed/main.go:82 | the 64 characters are those of table 2 of RFC 4648 |
| Base64Url.GroupIsNumber | server/cmd/thefeed/main.go:82 | three bytes and their four characters are one number of 24 bits |
| Base64Url.EncodeExamples | server/cmd/thefeed/main.go:82 | the first examples of section 10 of RFC 4648 |
| Base64Url.EncodeDecode | web/src/lib/feed-crypto.ts:1-7 | a text over the alphabet decodes exactly when its length is not 1 modulo 4, and is the encoding of what it decodes to exactly when its dropped bits are zero |
| Base64Url.PaddingLengths | web/src/lib/feed-crypto.ts:2 | which signs the slice appends for each length modulo 4 |
| Base64Url.PaddingIsStripped | web/src/lib/feed-crypto.ts:2-3 | the appended signs are exactly what the decoder takes off again, but for lengths of 1 modulo 4 |
| Base64Url.DecodeUrlText | web/src/lib/feed-crypto.ts:1-7 | what any text over the alphabet decodes to |
| Base64Url.EncodeLength | server/cmd/thefeed/main.go:82 | the length of an unpadded encoding |
| Chunking.SplitFixed | server/cmd/thefeed/main.go:282-295 | the loop yields the pieces, for every size, nonpositive ones included |
| Chunking.WholePiece | server/cmd/thefeed/main.go:283-285 | a text stays whole exactly when it is no longer than a piece or the size is not positive |
| Chunking.PiecesCut | server/cmd/thefeed/main.go:282-295 | the pieces lose and reorder nothing, are full but for the last, and none is empty for a nonempty text |
| Chunking.CutUnique | server/cmd/thefeed/main.go:282-295 | there is only one such cut |
| Chunking.PiecesCount | server/cmd/thefeed/main.go:282-295 | at most k pieces exactly when k full ones hold the text |
| Chunking.ConcatPieces | web/src/lib/dns-fetcher.ts:98 | joining undoes cutting |
| Chunking.SplitForTargetParts | server/cmd/thefeed/main.go:297-303 | never more than the requested number of pieces, whose common size is the least that allows it |
| Client.FetchTXTScatter | web/src/lib/dns-fetcher.ts:134-151 | the first of at most three rounds that yields a text, all rounds before it lost, and two jobs counted for each |
| Client.FetchMultipartCiphertext | web/src/lib/dns-fetcher.ts:58-115 | the loops over attempts and parts end as the state machine of single rounds does, with the same text, count and error |
| Client.CleanNameAt | web/src/lib/dns-fetcher.ts:27-29 | cleaning takes away white space, and nothing else, wherever it stands |
| Client.CleanNameUnchanged | web/src/lib/dns-fetcher.ts:27-29 | a name without white space stays as it is |
| Client.RoundEnds | web/src/lib/dns-fetcher.ts:76-112 | exactly which rounds end the fetch with which error, and which start it anew |
| Client.FirstTextStored | web/src/lib/dns-fetcher.ts:82-83 | the first text fills exactly the element it names in an array of empty strings |
| Client.FirstTextDecides | web/src/lib/dns-fetcher.ts:76-80 | a first text without a header ends the fetch at once, in whatever round it came |
| Client.ThreeLostEnd | web/src/lib/dns-fetcher.ts:138-150 | three rounds without an answer end the fetch |
| Client.QueriesAreCounted | web/src/lib/dns-fetcher.ts:75-102 | a fetch that ends with a text reports two queries for every round it took |
| Client.ScatterEnds | web/src/lib/dns-fetcher.ts:134-151 | a scatter is its lost rounds followed by the one that ends it |
| Rotation.RotationSafety | web/src/lib/dns-fetcher.ts:67-103 | over every interleaving: a fetch that ends with a text ends with a part by part mixture of published generations, never going back to an older one, all of that number of parts |
| Rotation.StepKeepsInv | web/src/lib/dns-fetcher.ts:70-95 | every step, of either side, keeps what is in the array a mixture in order of age |
| Rotation.ReplyIsCurrentPart | server/cmd/thefeed/main.go:136-140 | an answer is no header, or the part that was asked for from the generation that is current |
| Rotation.OtherPartCountEndsAttempt | web/src/lib/dns-fetcher.ts:91-109 | an answer from a generation with another number of parts always abandons the attempt, and the third attempt is the last |
| Attempts.OutOfAttempts | web/src/lib/dns-fetcher.ts:63-114 | over every run, a fetch that gives up on an invalid chunk had the cache replaced at least three times while it went on, if no answer is cut |
| Rotation.QuietFetchIsWhole | web/src/lib/dns-fetcher.ts:67-103 | without a publication between the first and the last query the text is exactly the batch that was current |
| Rotation.QuietStaysFresh | web/src/lib/dns-fetcher.ts:67-103 | without a publication every part comes from the newest generation |
| Mixtures.AssembledExactly | web/src/lib/dns-fetcher.ts:91-98 | a text can be the end of a fetch if and only if it is such a mixture of parts that get through; nothing is asked of the other parts |
| Mixtures.MixtureReachable | web/src/lib/dns-fetcher.ts:91-98 | for every mixture in order of age whose own parts get through, a run that ends with it |
| Mixtures.RunKeepsDelivered | web/src/lib/dns-fetcher.ts:91-98 | over every run, whatever query brought it, each part in the array would also get through to the client's own query |
| TwoGenerations.CanMixIff | web/src/lib/dns-fetcher.ts:91-98 | of two generations cut into equally many parts a fetch can end with a text of neither if and only if they differ in at least two parts |
| Mixtures.GenerationsCanMix | web/src/lib/dns-fetcher.ts:91-93 | a run that ends with a text no generation ever had |
| Refresh.RefreshChunks | server/cmd/thefeed/main.go:66-86 | the loop puts exactly the groups that could be encrypted into the cache, each under its number |
| Refresh.GroupsCover | server/cmd/thefeed/main.go:68-74 | there are exactly as many groups of ten as the list needs |
| Refresh.GroupAt | server/cmd/thefeed/main.go:69-74 | each group is the slice the loop takes |
| Refresh.GenerationIsPublishable | server/cmd/thefeed/main.go:66-86 | what is published is cut from base64url text, and a hundred posts make batches 0 to 9 only |
| FeedMerge.MergeAdds | web/src/app/page.tsx:221-226 | a merge keeps what was there in place, adds exactly the missing keys, and changes nothing when repeated |
| FeedMerge.MergeInOrder | web/src/app/page.tsx:221-226 | each new post is appended in its place exactly when its key was not there |
| FeedMerge.SameKeyIff | web/src/app/page.tsx:223-224 | posts of one source share a key exactly when their times are equal, and posts with times of one length exactly when source and time are |
| FeedMerge.KeysCanCollide | web/src/app/page.tsx:223-224 | with times of different lengths two sources can share a key |
| FeedMerge.MergedKeys | web/src/app/page.tsx:264-267 | all batches of a generation, in any order and with repeats, end with exactly the keys of the list |
| FeedMerge.MergeLosesNothingIff | web/src/app/page.tsx:221-226 | every order of arrival ends with exactly the posts of the list if and only if no two batches share a key |
| FeedMerge.SharedKeyLoses | web/src/app/page.tsx:223-224 | a key shared by two batches loses a post in some order of arrival |
| RateLimit.RateLimiter.constructor | server/internal/auth/service.go:58-63 | a rate below one becomes one, and no window is open |
| RateLimit.RateLimiter.Allow | server/internal/auth/service.go:65-79 | the decision and the whole new map, other keys untouched |
| RateLimit.RefusedOnlyAtRate | server/internal/auth/service.go:70-76 | over every run, a call is refused only if the full rate was allowed to its key within the second before it, and a refusal changes nothing |
| RateLimit.RateBound | server/internal/auth/service.go:65-79 | over every run, the most calls one key gets through in any interval, in nanoseconds |
| RateLimit.RateBoundInSeconds | server/internal/auth/service.go:65-79 | at most (L + 1) times the rate in L whole seconds, one less when L is positive |
| RateLimit.RateBoundIsReached | server/internal/auth/service.go:65-79 | for every rate and interval a run that lets through exactly that many |
| RateLimit.KeysAreIndependent | server/internal/auth/service.go:65-79 | what a key gets does not depend on the calls for other keys |
| TokenExchange.ExchangeToken | server/internal/auth/service.go:114-152 | status, limiter and allowlist after a request: nothing changes before method and transport are right, only the limiter before the body is, the allowlist only when a key is issued |
| TokenExchange.AnswerIs | server/internal/auth/service.go:114-152 | the answer to every request of every run, in the order method, transport, rate, body, token; issued exactly for a known token that is not revoked, not expired, not marked and, if tokens are consumed, not issued for before |
| TokenExchange.RowsKept | server/internal/auth/service.go:148 | a run leaves of every row all but the mark of its use |
| TokenExchange.RevealingIsAllowed | server/internal/auth/service.go:114-152 | the answers that say anything about body or token are exactly the calls the limiter allows |
| TokenExchange.GuessesAreBounded | server/internal/auth/service.go:124-152 | over every run, the bound on an address's answers about tokens in any number of whole seconds |
| TokenExchange.SingleUseIff | server/internal/auth/service.go:148 | one request after another, no token is issued for twice if and only if the server consumes tokens |
| TokenStore.Store.ValidateAndConsume | server/internal/tokenstore/store.go:34-77 | success exactly for a row that is there, not revoked, not expired and not consumed; the first check that fails decides, only a consuming success changes the row, and the token is refused from then on |
| TokenStore.PassesIff | server/internal/tokenstore/store.go:41-65 | over every interleaving since a token was inserted, a check passes exactly when the token was not revoked, not removed, is not expired and was not used |
| TokenStore.RevokedIsRefused | server/internal/tokenstore/store.go:57-59 | after a revocation and until the next insert no check passes, with or without the isolation |
| TokenStore.ExpiredIsRefused | server/internal/tokenstore/store.go:60-62 | nor does one later than the expiry |
| TokenStore.EndedStays | server/internal/tokenstore/store.go:39 | a transaction that was refused never succeeds later |
| TokenStore.Store.Insert | server/internal/tokenstore/store.go:79-86 | inserting again makes a token usable again |
| TokenStore.StepKeepsInv | server/internal/tokenstore/store.go:34-86 | every step of any transaction keeps: consumed means used once, and current snapshots and writes under way are of unconsumed rows |
| TokenStore.SingleUse | server/internal/tokenstore/store.go:34-77 | over every interleaving at most one consuming exchange of a token succeeds between two inserts of it |
| TokenStore.DoubleUseWithoutIsolation | server/internal/tokenstore/store.go:68-76 | without the refusal of stale writers two exchanges of one token succeed |
| PostStore.Store.constructor | server/internal/store/store.go:41-58 | a new file has empty tables, and ids count from 1 |
| PostStore.Store.InsertBatch | server/internal/store/store.go:62-90 | duplicates by hash ignored, in order, and the number of new rows |
| PostStore.Store.SetCursor | server/internal/store/store.go:121-125 | one cursor set, everything else as it was |
| PostStore.Store.Prune | server/internal/store/store.go:128-136 | the rows fetched before the cutoff removed and counted |
| PostStore.Store.Latest | server/internal/store/store.go:93-111 | the posts of the newest rows |
| PostStore.InsertAllHashes | server/internal/store/store.go:80-88 | after a batch exactly its hashes are added; old rows and cursors stay |
| PostStore.InsertAllUnique | server/internal/store/store.go:73-88 | no two rows ever share a hash |
| PostStore.InsertAllIds | server/internal/store/store.go:44-49 | the new rows have the next ids in order, and no id is given twice |
| PostStore.PruneIds | server/internal/store/store.go:128-136 | pruning keeps the ids that are left in order and reuses none |
| PostStore.FirstIsStored | server/internal/store/store.go:80-88 | of several posts with a new hash the first is the one that is stored |
| PostStore.SameHashIff | server/internal/store/store.go:138-141 | a post is a duplicate exactly when source and text are the same, whatever its date, for sources without a zero character |
| PostStore.InsertKnown | server/internal/store/store.go:73-88 | a batch of known posts changes nothing |
| PostStore.PruneByTime | server/internal/store/store.go:128-136 | pruning by string keeps exactly the rows fetched at the cutoff or later in time |
| PostStore.NewestAreNewest | server/internal/store/store.go:93-97 | as many rows as asked for or there are, in order, and none left out comes before one returned |
| PostStore.NewestInTime | server/internal/store/store.go:93-97 | no post left out is later in time than one returned, and those of one moment come in the order of their ids, the latest first |
| Ingest.IngestSource | server/internal/feed/fetch.go:87-127 | the tables after an undisturbed ingest, of either kind of source, fetch failures included |
| Ingest.IngestCatchesUp | server/internal/feed/fetch.go:116-125 | after an ingest every selected post is in the table and none is newer than the cursor, which is the date of a selected post or where it was; no other cursor moves |
| Ingest.AloneIsIngestTables | server/internal/feed/fetch.go:87-127 | the steps of one worker, with none between them, leave exactly what the undisturbed ingest leaves |
| Ingest.MessageSelected | server/internal/feed/fetch.go:96-99 | a channel's message is selected exactly when it has a text and is newer than the cursor |
| Ingest.NewestIsSelected | server/internal/feed/fetch.go:106-113 | the newest date is that of a selected post |
| Ingest.SourceKinds | server/internal/feed/fetch.go:93 | which names are channels |
| Ingest.SelectedItems | server/internal/feed/fetch.go:106-113 | the loop selects exactly the items newer than the cursor, and its newest date covers them |
| Ingest.UnchangedFeedInsertsNothing | server/internal/feed/fetch.go:87-127 | a feed fetched again unchanged inserts no row as long as nothing was pruned, whatever else was inserted |
| Ingest.AtMostTenAndPruneAlone | server/internal/feed/fetch.go:63-85 | over every run at most ten ingests at once, and pruning only when none is in flight and all had their turn |
| Ingest.StepKeepsInv | server/internal/feed/fetch.go:63-127 | every step of every ingest keeps: each inserted post is behind its source's cursor, or about to be |
| Ingest.IngestSafety | server/internal/feed/fetch.go:63-127 | over every run of distinct sources: no inserted post is newer than its source's cursor once no ingest is in flight; of two posts in different batches of its source, pruned since or not, the later is strictly newer, unless neither has a date |
| Ingest.DistinctSourcesKeepCursors | server/internal/feed/fetch.go:123-125 | over every run of distinct sources no cursor goes back |
| SharedSource.CursorGoesBack | server/internal/feed/fetch.go:67-80 | for a source listed twice a run in which its cursor goes back |
| SharedSource.CursorsNeverDecreaseIff | server/internal/feed/fetch.go:67-125 | cursors never go back, in any run, if and only if no source is listed twice |
| Dateless.ComesBackIff | server/internal/feed/fetch.go:93-125 | over all runs of distinct sources: a source can insert a post twice, and store, prune and store it again, if and only if the post has no date and the source yields a list |
| Dateless.DatelessComesBack | server/internal/feed/fetch.go:106-125 | for every list of sources, every source in it that yields a list and every post without a date, a run that stores, prunes and stores it again |
| Dateless.RunKeepsDated | server/internal/feed/fetch.go:95-98 | over every run a channel inserts dated messages only |
| Timestamps.FormatOrderIff | server/internal/feed/fetch.go:231 | for all moments: the strings compare as the moments do, both ways, if and only if the years have equally many digits or the shorter one is no greater than the leading digits of the longer |
| Timestamps.FormatOrder | server/internal/feed/fetch.go:231 | for the years up to 9999 the order of the formatted strings is the order in time, and equal strings are equal moments |
| Timestamps.EarlierIsFewerSeconds | server/internal/feed/fetch.go:231 | comparing field by field is comparing seconds, over the whole calendar |
| Timestamps.FormatOrderEnds | server/internal/feed/fetch.go:231 | against a year of five digits, exactly the years up to a tenth of it still compare in time; the last second of 9999 and the fourth hour of the year 10000 do not |
| Timestamps.FormatIsRFC3339 | server/internal/feed/fetch.go:231 | every field and every fixed character of the string, and that the fields read back |
| Timestamps.MonthTable | server/internal/feed/fetch.go:231 | the days before each month |
| Timestamps.DaysBeforeYearIs | server/internal/feed/fetch.go:231 | the Gregorian count of days in closed form |
| Timestamps.ParseRSSDate | server/internal/feed/fetch.go:215-235 | the first format that reads the date decides; a date none reads stays as it is |
| Timestamps.FirstReadingIs | server/internal/feed/fetch.go:228-233 | every format is tried in order until one reads the date |
| Timestamps.RSSDateIs | server/internal/feed/fetch.go:228-234 | the first format that reads a date gives its form, and a date that none reads stays as it came |
| Timestamps.RecognisedDatesCompare | server/internal/feed/fetch.go:107-110 | any two recognised dates, also those that an offset moves to the year -1 or 10000, compare as the moments they stand for if and only if their years in UTC compare |
| KeyPath.EncryptAESGCM | server/cmd/thefeed/main.go:327-342 | twelve drawn bytes in front of the sealed text, or nothing for a key of no AES length |
| KeyPath.KeyTextsAgree | server/internal/crypto/keys.go:11-15 | the client's key text is the server's if and only if the master string has no bar, no surrounding white space and no leading mark |
| KeyPath.TokensAgree | server/internal/auth/service.go:135 | the token the browser trimmed is the token the server trimmed exactly when it is not empty and no next-line character ends it |
| KeyPath.EnvelopeOpens | web/lib/session-envelope.ts:13-41 | the token's owner unwraps the envelope to the text before the first bar, and to the expiry for a plain master string |
| KeyPath.EnvelopeStaysShut | web/lib/session-envelope.ts:33-37 | a token the server reads differently does not open the envelope |
| KeyPath.SealedIsRead | web/src/lib/feed-crypto.ts:23-40 | a ciphertext is read with exactly the session keys whose digest is the server's key, and then as the text that was encrypted |
| KeyPath.SameKeyIff | server/internal/crypto/keys.go:11-28 | both ends have the same key if and only if no decoder reads the master string and both take it as it stands, or one reads as a key the digest of the client's own text |
| KeyPath.KeyByDecoders | server/internal/crypto/keys.go:11-28 | the server's key by the three decoders themselves, in their order, the digest last |
| KeyPath.SameKeyByDecoders | server/internal/crypto/keys.go:16-27 | the two ends disagree on every master string that any of the three decoders reads as a key, unless that is the digest of the client's text |
| KeyPath.ShortIsRefused | web/src/lib/feed-crypto.ts:25 | a ciphertext without a byte behind its nonce is refused |
| KeyPath.TrimSpaceIs | server/internal/crypto/keys.go:12 | the server's trimming takes its white space off both ends and nothing else |
| KeyPath.OpenedIff | web/lib/token-flow.ts:18-52 | for every master string and every token as typed, the batch is read if and only if token and key agree |

## Left out

- Response.ParseFirstTXT: one character for each byte of the text; the decoding of UTF-8 beyond ASCII is not modelled, and the server's texts are ASCII.
- Address.AddressAgreement: names in ASCII; Go's lower-casing of other letters is not modelled.
- WireName.BuildTXTQuery: characters are counted once each, where JavaScript counts two for those beyond the basic plane.
- Client.FetchMultipartCiphertext: JavaScript rounds numbers above 2 to the 53rd; only numbers up to the greatest array length matter to a branch. The delays between attempts are not modelled.
- Client.FetchTXTScatter: the two jobs of a round are one event that yields the first text or none; which resolver wins is the network's choice.
- RateLimit.RateLimiter.Allow: the entries are values of the map, not shared pointers; the mutex makes each call one step.
- Decimal.IntToString: the digit loop is a method of its own.
- PostStore.Store.InsertBatch: the hash is taken to be injective, and database errors do not occur.
- Ingest.IngestSource: database errors do not occur; dates that no format reads compare as raw text.
- Timestamps.ParseRSSDate: the formats are parameters that read a string or not; layouts of Go's time package are not part of this model.
- Ingest.IngestSafety: a source that is listed twice is not covered; `SharedSource` shows what can happen then.
- Rotation.RotationSafety: no DNS cache stands between client and server; the batch number in a header is not checked by the client and not relied on.
- Delivery.RotatedBatchIsRead: that encryption opens no mixture of published parts that was not sealed is assumed of the generations at hand.
- Delivery.FeedArrives: marshalling and parsing of a batch are parameters that undo each other.
- KeyPath.OpenedIff: encryption, key derivation, digest, deflate and UTF-8 are parameters with inverse laws, and the two pairs of inputs that matter are taken not to collide; a browser without `DecompressionStream` is not modelled.
- TokenExchange.ExchangeToken: the issue of the envelope after a success is in `KeyPath`; JSON, headers, the pause before a refusal and database errors are not modelled.
- Choice among several records of a DNS-over-HTTPS answer, quote stripping, and the HTTP handlers: input and output plumbing.
- The forwarder `server/cmd/slipgate/main.go`: its name parser is a second copy of the one modelled here.
- Scraping, XML and HTML: the items of a fetched feed are arbitrary.
- Sockets, timers, TLS, deployment, telemetry, grouping by day and the page itself: nothing is computed there that the modelled parts rely on.
- The post that stands in when the feed is empty, and the default limit of `Latest`: the list that is cut into batches is arbitrary.

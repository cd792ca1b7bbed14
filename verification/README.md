# A verified model of the XORC gateway

The gateway receives batches of events from SDK clients, checks them, finds or makes a
device identity, turns the batch into its published form, hands it to Kafka and answers the
client. This project models that path in Dafny and proves what holds of every batch, of every
property tree, and of every interleaving of requests, store faults and table refreshes.

Strings are their UTF-8 bytes, as in Rust. Integers are unbounded, and the 64-bit ranges are
written out. Randomness (generated ids, nonces), the clock, the answers of the database and
of Kafka, and the HMAC check are inputs or arbitrary choices.

| file | what it models |
|---|---|
| `Wrappers.dfy`, `Power.dfy`, `Errors.dfy` | optional values and results, powers of two, the error answers |
| `Text.dfy` | UTF-8 and lossy decoding |
| `Uuid.dfy`, `Base64.dfy` | text forms: UUIDs (RFC 4122), hexadecimal, base64 (RFC 4648) |
| `Encryption.dfy` | the encrypted device id: buffers, sealing, opening |
| `Timestamp.dfy`, `Float64.dfy` | `u64` parsing and printing, `as f64` |
| `FlatKeys.dfy`, `Properties.dfy` | the property flattener and its inverse |
| `RequestContext.dfy` | headers, device identity, routing key |
| `EventBatch.dfy` | sorting and conversion of a batch |
| `IfaMatching.dfy`, `Registration.dfy` | the advertising id table and the registration protocol over it |
| `AppRegistry.dfy`, `Cors.dfy` | application table, validation, refreshing, accepted origins |
| `Pipeline.dfy`, `Guarantees.dfy` | all requests in flight as one state machine, and what its runs guarantee |
| `Outcomes.dfy` | what those runs do to the device table, to Kafka and to web clients, told by batches and headers alone |
| `Gateway.dfy` | the request handler as a class; each call is a run of that machine |
| `Shutdown.dfy` | the main thread against the updater thread |

The three state machines (`Registration`, `Pipeline`, `Shutdown`) are given by `Enabled` and
`Step`; a run is a sequence of labels and a label that is not enabled changes nothing, so a
theorem about all label sequences is a theorem about all interleavings. The pipeline contains
the registration protocol as a component, and `GatewayRunsProtocol` carries the protocol's
theorems over to it.

Authenticated encryption enters by its law only: a record of two functions, sealing and
opening, constrained by a subset type. `TransparentCipher` shows that the law can be met.

Findings where the code does not do what one would expect of it:

- A nested property's key repeats its whole prefix at every level (`a__a__b__c`), because the
  prefix is prepended to a key that already carries it. The key is the plain join of the path
  exactly for at most one level of nesting (`PlainJoinExactly`). A path can be read back from
  its key exactly when no key hides a separator (`ReadsBackExactly`), and then the whole tree
  can be rebuilt (`UnflattenFlattenExactly`). No other path at all has the same key exactly for
  a single name without a separator (`KeyIsUniqueExactly`).
- Registrations of one device that overlap can answer with different ids (`RaceAnswersTwoIds`).
  From an unbound key, the ids told to clients are exactly the ids generated
  (`ToldIdsAreGenerated`), so all registrations agree if and only if no two different ids were
  generated, under every interleaving and fault (`AnswersAgreeExactly`). A settled binding is
  lost exactly by a read that fails (`UnsettledExactlyByFaultyRead`).
- The comment on `validate` in `src/app_registry.rs` asks for an `XORC-Api-Token` header; the
  code accepts a request without one (`TokenlessIsAccepted`, `TokenMayBeOmitted`). The comment
  on `Context` in `src/context.rs` promises an error for a device id that cannot be decrypted;
  the code treats it as absent (`GarbledHeaderIsAbsent`).
- A device id header of well-formed base64 with fewer than 16 symbols panics (`PanicsExactly`);
  the empty header is one (`ShortHeadersPanic`). In the pipeline such a request, and no other,
  ends in the stage `Aborted` (`AbortsExactlyOnPanic`).

## Model

| member | source | states |
|---|---|---|
| Registration.UnsettledExactlyByFaultyRead | src/gateway.rs:212-245 | when a key is bound to an id and whoever is between read and write on it holds that id, one step of any request unsettles this if and only if it is a failing read of the key that generates another id; write faults never do |
| Registration.BindingIsStable | src/gateway.rs:212-245 | over every interleaving without a failing read of the key the settled binding stays, and every registration on the key that ends answers with it |
| Registration.RaceAnswersTwoIds | src/gateway.rs:221-241 | two registrations of one device that both read before either writes answer with two different ids, however both writes end, and the last write that takes effect decides the table |
| Registration.IdsAreGenerated | src/gateway.rs:206-270 | at every moment of every run from an untouched key, the ids held by or told to its registrations, and the one in the table, are exactly ids generated so far, and no generated id is dropped |
| Registration.ToldIdsAreGenerated | src/gateway.rs:206-270 | once every registration on the key that has read is answered, the ids told to clients are exactly the generated ones, under every interleaving, read fault and write fault |
| Registration.AnswersAgreeExactly | src/gateway.rs:206-270 | all registrations on the key answer with one id if and only if no two different ids were generated for it |
| Registration.AnswersCountMisses | src/gateway.rs:206-270 | with ids that are all different, as many ids are told as reads found nothing, so answers agree if and only if at most one read did |
| Registration.CompetingIdsAreBounded | src/gateway.rs:221-241 | from an unbound key, the distinct ids ever stored under it number at most the reads of it that found nothing |
| Registration.NeverUnbound | src/ifa_matching.rs:63-172 | a key once bound stays bound, whatever fails |
| Registration.NoMissOnceBound | src/ifa_matching.rs:63-109 | once a key is bound, no read of it finds nothing if and only if none fails |
| Registration.MissesPrecedeFirstWrite | src/gateway.rs:221-241 | after the first write that binds the key no read finds nothing if and only if none fails, and then all competing ids come before it |
| Registration.KeysComeFromTrackedDevices | src/ifa_matching.rs:195-205 | no reachable table gains a key with the nil UUID, or one that no request with tracking enabled asked for |
| IfaMatching.KeyOf | src/ifa_matching.rs:195-205 | a key exists exactly for a parsable, non-nil advertising id of a device with tracking enabled and a parsable application id, and is made of these two |
| IfaMatching.ReadAfterWrite | src/ifa_matching.rs:111-172 | after a write of any text, with any outcome, the written key reads as the canonical form of that text if it parsed and was not lost, and every other key reads as before |
| IfaMatching.IfaStore.GetIdForIfa | src/ifa_matching.rs:63-109 | the read leaves the table alone, returns the printed id or nothing, and counts ok, not found or error as the code does; a response without rows is not counted |
| IfaMatching.IfaStore.PutIdForIfa | src/ifa_matching.rs:111-172 | the write binds exactly when key and id parse and it is not lost, reports success exactly when it was confirmed, and counts only what reached the database |
| IfaMatching.ReadThenWriteIsIdentity | src/gateway.rs:221-238 | writing back the id that was read leaves the table as it was, whatever faults occur |
| IfaMatching.WriteThenRead | src/ifa_matching.rs:63-172 | a generated id that was written is what the next successful read returns |
| Properties.FlattenProperties | src/events/input/sdk_event.rs:83-127 | the recursive loop over the shared vector appends exactly the pure flattening and changes nothing already there |
| Properties.FlatProperties | src/events/input/sdk_event.rs:76-81 | the properties of an event are the flattening of its tree from the empty prefix |
| Properties.FlattenOne | src/events/input/sdk_event.rs:88-125 | what each kind of value becomes under a prefix: an entry under prefix and key for texts, booleans and numbers, the flattening of an object under the prefix twice, its key and two underscores, nothing for nulls and arrays |
| Properties.FlattenConcat | src/events/input/sdk_event.rs:88 | fields are flattened one after the other, from left to right |
| Properties.NestedField | src/events/input/sdk_event.rs:119-120 | a field one level down is published as the two names joined by two underscores |
| Properties.LeavesAreShown | src/events/input/sdk_event.rs:83-127 | a value is a leaf of the tree if and only if it stands at the end of its path and is a text, boolean or number |
| Properties.FlattenIsKeyedLeaves | src/events/input/sdk_event.rs:83-127 | the flat list has one property for each string, boolean and number leaf, depth first in map order, under the key of its path |
| Properties.UnflattenFlattenExactly | src/events/input/sdk_event.rs:83-127 | the tree without arrays, nulls and empty objects is rebuilt from the flat list if and only if every leaf path is readable |
| Properties.RebuildKeepsLeaves | src/events/input/sdk_event.rs:83-127 | rebuilding a tree from any list of leaves keeps exactly these leaves in order |
| Properties.PruneKeepsLeaves | src/events/input/sdk_event.rs:83-127 | the tree that is rebuilt has all the leaves of the original in order and no empty branch |
| Properties.NumberError | src/events/input/sdk_event.rs:104-111 | converted numbers are off by at most 512 where they fit `i64` and at most 1024 above, exact up to 53 bits, unchanged if they were doubles |
| Properties.NumbersKeepOrder | src/events/input/sdk_event.rs:104-111 | conversion keeps the order of integers, also between the signed and the unsigned branch |
| FlatKeys.KeyLength | src/events/input/sdk_event.rs:89-120 | the length of a flat key in closed form: the last key, and each earlier key with its separator as often as a power of two says |
| FlatKeys.KeyBelow | src/events/input/sdk_event.rs:89-120 | the key one level further down is what stands before the last name, the whole key, two underscores and the new name |
| FlatKeys.PlainJoinExactly | src/events/input/sdk_event.rs:119-120 | the flat key is the plain join of its path if and only if the path has at most two keys |
| FlatKeys.ReadsBackExactly | src/events/input/sdk_event.rs:89-120 | a path is recovered from its flat key if and only if no key hides a separator and no key but the last ends in an underscore |
| FlatKeys.ReadableExactly | src/events/input/sdk_event.rs:89-120 | that condition in bytes: no name has two underscores in a row, and none but the last ends in one |
| FlatKeys.KeysAreDistinct | src/events/input/sdk_event.rs:89-120 | distinct readable paths get distinct flat keys, despite the repeated prefixes |
| FlatKeys.KeysCollide | src/events/input/sdk_event.rs:89-120 | every nested path, and every single name with a separator inside, shares its flat key with another path |
| FlatKeys.KeyIsUniqueExactly | src/events/input/sdk_event.rs:89-120 | no other path has the same flat key if and only if the path is a single name without a separator |
| Float64.RoundsToNearestEven | src/events/input/sdk_event.rs:104-111 | `as f64` yields a double, no double, integral or not, is nearer, and of two equally near ones it takes the one with the even last place |
| Float64.ExactExactlyOnDoubles | src/events/input/sdk_event.rs:104-111 | an integer is unchanged if and only if it has a 53-bit significand |
| Float64.Monotone | src/events/input/sdk_event.rs:104-111 | conversion is monotone over all integers |
| Float64.ErrorBound | src/events/input/sdk_event.rs:104-111 | off by at most 512 on `i64`, at most 1024 on `u64` |
| Float64.ErrorBoundIsTight | src/events/input/sdk_event.rs:104-111 | both bounds are reached |
| Timestamp.ParsesExactly | src/events/input/sdk_event.rs:50-57 | a text is accepted if and only if it is a string of the digits 0 to 9, perhaps after a plus sign, denoting a number below 2^64, which is the result |
| Timestamp.ParsePrint | src/events/input/sdk_event.rs:50-65 | parsing undoes printing on all of `u64` |
| Timestamp.PrintedDigit | src/events/input/sdk_event.rs:65 | each byte of the printed time is its decimal digit at that place |
| Timestamp.PrintedWithoutZeros | src/events/input/sdk_event.rs:65 | no printed time but zero starts with a zero |
| Timestamp.PrintParse | src/events/input/sdk_event.rs:50-65 | printing what was parsed gives the text without plus sign and redundant zeros |
| Encryption.Encrypt | src/encryption.rs:40-77 | the buffers of 12, 52 and 64 bytes produce the base64 of nonce and sealed text |
| Encryption.Decrypt | src/encryption.rs:126-146 | splitting at 12 and opening in place yields the clear text, or an error for bad base64 or a failed opening |
| Encryption.EnvelopeLength | src/encryption.rs:63-76 | the encrypted id always has 88 characters |
| Encryption.EnvelopeLayout | src/encryption.rs:40-76 | the encrypted id is the base64 of 12 bytes of nonce and 52 sealed bytes of the text, cut or padded with zeros at its end to 36 |
| Encryption.DecryptEncrypt | src/encryption.rs:40-146 | decrypting an encrypted text gives it cut or zero-padded to 36 bytes, decoded lossily |
| Encryption.UnwrapExactly | src/encryption.rs:126-146 | a text decrypts to a clear text if and only if it stands for a nonce of 12 bytes and bytes that open under it to that text |
| Encryption.RoundTrip | src/encryption.rs:40-146 | every UTF-8 text of 36 bytes comes back unchanged, under every nonce and secret |
| Encryption.AsciiRoundTrip | src/encryption.rs:40-146 | ASCII text comes back unchanged if and only if it has 36 bytes |
| Encryption.IdRoundTrip | src/context.rs:28-42 | a printed UUID always comes back unchanged |
| Encryption.PanicsExactly | src/encryption.rs:130-132 | decryption panics if and only if the header is well-formed base64 of fewer than 16 symbols, with or without its padding |
| Encryption.ShortHeadersPanic | src/encryption.rs:130-132 | the empty header panics, and so does a lone byte without padding |
| Encryption.NeverOpens | src/encryption.rs:130-141 | text that is no base64, or holds a nonce but no whole tag, is an error under every secret |
| Text.LossyIsValid | src/encryption.rs:143 | lossy decoding always yields UTF-8 |
| Text.LossyKeepsExactlyValid | src/encryption.rs:143 | lossy decoding leaves a byte string unchanged if and only if it is UTF-8 |
| Text.ValidExactly | src/encryption.rs:143 | a byte string is UTF-8 if and only if it encodes some Unicode scalar values |
| Text.BrokenIsMaximal | src/encryption.rs:143 | each piece replaced by U+FFFD is as long as a scalar value could still begin with it, and at least one byte |
| Base64.DecodesExactly | src/encryption.rs:131 | a text decodes to given bytes if and only if it is well-formed, padded fully, partly or not at all, and its bit stream has these bytes |
| Base64.DecodeEncode | src/encryption.rs:75-131 | decoding undoes encoding, for all bytes |
| Base64.EncodingsExactly | src/encryption.rs:75-131 | of all texts that decode to the same bytes the encoding is the one with complete padding and no stray bits |
| Base64.EncodingEndsIn | src/encryption.rs:75 | an encoding ends in as many equal signs as bytes are missing in its last group, and has no other |
| Base64.SymbolsAreTable1 | src/encryption.rs:75 | the alphabet is the standard one |
| Uuid.ParsePrint | src/ifa_matching.rs:102 | a printed UUID parses back to itself |
| Uuid.PrintsGroups | src/ifa_matching.rs:102 | a UUID is printed as 8, 4, 4, 4 and 12 lower-case digits with hyphens between |
| Uuid.ParseOfCanonicalLength | src/ifa_matching.rs:135 | a text of 36 bytes parses to a UUID if and only if it is its printed form in either case |
| Uuid.ParseOfOtherLengths | src/ifa_matching.rs:195-198 | the other texts that parse are the 32 digits alone and the hyphenated form as a URN |
| Uuid.HexDecode | src/app_registry.rs:216-236 | secrets decode exactly from an even number of hexadecimal digits, high digit first |
| RequestContext.NewContext | src/context.rs:62-97 | the context takes the headers, and a device id exactly if its header decrypts |
| RequestContext.ContextExactly | src/context.rs:62-97 | each header ends up in its own place of the context, and the device is there exactly if its header decrypts |
| RequestContext.RoutingKeyExactly | src/bus/kafka.rs:71-79 | there is a Kafka key exactly for a known device: application, bar, id in clear |
| RequestContext.GarbledHeaderIsAbsent | src/context.rs:62-82 | a device id header that is no base64, or too short to hold a tag, makes the device unknown and is not an error |
| RequestContext.EnvelopedAgrees | src/gateway.rs:221-231 | an id encrypted for a client, read from the table or generated, decrypts to itself |
| RequestContext.HeaderBringsIdBack | src/context.rs:62-82 | a client that sends back the ciphertext it was given is recognised as the same device |
| EventBatch.FirstRegister | src/gateway.rs:277-279 | finds the first event named `xorc_register`, if there is one |
| EventBatch.PlatformExactly | src/events/input/sdk_device.rs:74-88 | the platform is what the device names, else what its operating system says, and web only by name |
| EventBatch.OwnedBatch.SortByTimestamp | src/events/input/sdk_event_batch.rs:25-27 | leaves a permutation of the events with ascending timestamps |
| EventBatch.OwnedBatch.IntoProto | src/events/input/sdk_event_batch.rs:16-41 | the published batch names the known device or else the client's recipient, keeps device and application, and has each sorted event with every field in its place |
| EventBatch.PublishedInOrder | src/events/input/sdk_event_batch.rs:25-39 | published events are a permutation of the accepted ones, each with its own id, name, session, user, reference, time and flattened properties, and their printed timestamps parse back to a non-decreasing sequence |
| EventBatch.PublishedHeader | src/events/input/sdk_event_batch.rs:29-37 | source, type, feed, device and recipient of the published batch |
| AppRegistry.TableAgreesWithScan | src/app_registry.rs:101-127 | every lookup answers as a scan for the last configuration entry with that id, with its token and the secrets it spells in hexadecimal |
| AppRegistry.RefreshedFromRows | src/app_registry.rs:300-323 | after a refresh an application is known if and only if a row has it, with the token of the last such row and the secrets its columns spell in hexadecimal |
| AppRegistry.RefreshWithoutRows | src/app_registry.rs:279-328 | a failed refresh changes nothing, and one without rows leaves no application known |
| AppRegistry.AcceptsExactlyAdmissible | src/app_registry.rs:150-200 | a request is accepted if and only if its application is known, its token does not mismatch, it has events and, unless waived, it is signed with the secret for the platform text or operating system text of its device |
| AppRegistry.RefusesExactly | src/app_registry.rs:150-200 | which error each refused request gets |
| AppRegistry.TokenMayBeOmitted | src/app_registry.rs:168-170 | leaving the token out never turns acceptance into refusal, and is never answered as an invalid token |
| AppRegistry.TokenlessIsAccepted | src/app_registry.rs:168-170 | a request without a token is accepted although its application has one |
| AppRegistry.Registry.UpdateApps | src/app_registry.rs:269-333 | a refresh replaces the whole table, empties it when there are no rows, and leaves it alone when connecting or querying fails |
| AppRegistry.TokenFromRows | src/app_registry.rs:137-140 | after a refresh the token found for an application is a given one if and only if the last row that has the application carries it |
| AppRegistry.Registry.RunUpdater | src/app_registry.rs:202-214 | the loop stops at the first lowered flag, and the live table is that of the last refresh that got through |
| Cors.BuildIndex | src/cors.rs:22-35 | the index lists an origin for an application if and only if the last configuration entry of the application does |
| Cors.ValidExactly | src/cors.rs:45-59 | an origin is valid if and only if one was sent and that entry lists it |
| Pipeline.StepKeepsInv | src/gateway.rs:296-358 | every step of every request, and every refresh, keeps the invariant of the whole gateway |
| Pipeline.ReachableInv | src/gateway.rs:296-358 | the invariant holds in every reachable state |
| Guarantees.PublishedWasAdmissible | src/gateway.rs:309-357 | whatever was published was admissible, by its own headers, for a table live in the run, came from a listed origin if its device says web, and has exactly the events of its batch in timestamp order |
| Guarantees.SnapshotWasLive | src/app_registry.rs:157-161 | a validation that succeeds uses one table, as a whole, that was live at that moment |
| Guarantees.FailsExactlyIfRefused | src/gateway.rs:309-357 | a request fails with an error if and only if one step of the run refused it with that error: its origin if it is from the web, its headers and batch against the one table live at that moment, the identity store that took no work for a registration without a usable device id, or a delivery that was not confirmed |
| Guarantees.AbortsExactlyOnPanic | src/encryption.rs:130-132 | of the requests looked at, exactly those are aborted whose device id header is well-formed base64 of fewer than 16 symbols |
| Guarantees.AcceptedIsPublishedOnce | src/gateway.rs:332-349 | a successful request has exactly one record in the log |
| Guarantees.AcceptedExactlyIfDelivered | src/gateway.rs:332-349 | success is answered if and only if Kafka confirmed |
| Guarantees.CounterCountsAnswers | src/gateway.rs:343 | EVENTS_COUNTER equals the number of results in all success answers |
| Guarantees.IdentityAgrees | src/gateway.rs:247-268 | a successful registration returns a ciphertext that decrypts to the published recipient and to the device part of the Kafka key, for a header-supplied, matched or generated device alike |
| Guarantees.ReturnedIdIsRecognised | src/gateway.rs:212-268 | a client that sends back the ciphertext it was given is published under the same recipient and Kafka key, and gets the same ciphertext if it registers again, in any run |
| Guarantees.AnswerShape | src/gateway.rs:272-293 | one result an event in request order, or a single result for the first register event |
| Guarantees.TokenIsLive | src/gateway.rs:257-259 | a token filled in comes from a table live after the validation, and from the validation's own table if no refresh came between |
| Guarantees.GatewayRunsProtocol | src/gateway.rs:206-245 | the registrations of the gateway are a run of the registration protocol |
| Guarantees.SettledDeviceIsAnswered | src/gateway.rs:206-270 | once a device is settled on an id, every later successful registration of it without a usable header gets a ciphertext of that id and is published under it |
| Guarantees.RegistrationsAgree | src/gateway.rs:206-270 | from an unbound key, while no two different ids are generated for it, all successful registrations of the device are published under one recipient |
| Outcomes.KeysAreNamedByBatches | src/ifa_matching.rs:195-205 | over every run, a key the table gained is named by the batch of a request whose device allows tracking and sent a parsable advertising id with a nonzero digit |
| Outcomes.LookupHolds | src/gateway.rs:219-231 | a registration holds the id the table has for what its batch names, if the read succeeds, and a generated one otherwise, with a ciphertext that decrypts to it |
| Outcomes.OnlyWritesBind | src/gateway.rs:233-238 | only a write changes the table: at what its batch names, to the id its registration holds, unless it is lost |
| Outcomes.WriteBindsAnsweredId | src/gateway.rs:233-241 | in every run, a write that is not lost binds the very id the registration goes on to answer with, and its ciphertext decrypts to it |
| Outcomes.UntrackedIsLeftOut | src/ifa_matching.rs:195-205 | no step of a request whose device forbids tracking changes the table, and its lookup finds nothing |
| Outcomes.UnknownOriginExactly | src/gateway.rs:309-318 | a request is refused for its origin if and only if it was looked at, CORS is configured, its device says web, and it sent no origin its application lists |
| Outcomes.PublishedIsTheBatch | src/events/input/sdk_event_batch.rs:16-41 | every published record is the batch of its request, all fields of all events in order of time, for the device its header decrypts to, or else a registered one, or else the recipient the client named, and with the Kafka key that goes with it |
| Outcomes.CanGoOnExactly | src/gateway.rs:296-358 | a request can take a step, whatever the others do, if and only if it is not yet answered or aborted |
| Outcomes.SevenStepsAtMost | src/gateway.rs:296-358 | in no run does a request take more than seven steps |
| Gateway.Handler.FetchId | src/gateway.rs:221-231 | the lookup or generation is the read step of the model, leaves the table alone, and finds nothing for a device that forbids tracking |
| Gateway.Handler.StoreId | src/gateway.rs:233-238 | the write whose result is ignored is the write step of the model, and none for a device that forbids tracking |
| Gateway.Handler.CreateNewDevice | src/gateway.rs:206-270 | registration ends as the model's does, with its context and single result |
| Gateway.Handler.GenerateEventResults | src/gateway.rs:272-293 | results and context are those of the model |
| Gateway.Handler.Send | src/gateway.rs:324-335 | the converted batch is handed over under its routing key, and nothing is counted yet |
| Gateway.Handler.PublishBatch | src/gateway.rs:324-349 | one record is published, the counter grows by the results exactly on success, and no other request moves |
| Gateway.Handler.HandleEvent | src/gateway.rs:296-358 | a call is a run of the model and its answer that of the final stage; earlier requests stay as they are, what is published is exactly the record of that stage with the whole batch in it, the counter grows by the results exactly on success, a registering client can decrypt its result to the published recipient, and the origin is refused exactly to web clients whose application does not list it |
| Gateway.Handler.RefreshApps | src/app_registry.rs:269-333 | a refresh is the refresh step of the model, and no step at all when applications come from the configuration |
| Shutdown.AtMostOneMoreRefresh | src/app_registry.rs:202-214 | after the flag is lowered one refresh starts if the updater had already read the flag, and none otherwise |
| Shutdown.ReachableInv | src/main.rs:132-137 | an unpark is remembered until the updater is past its park, and a join only returns for a thread that is gone |
| Shutdown.NeverWaitsForTimeout | src/main.rs:132-137 | with the flag lowered and main not finished, some thread can move without a timeout: the unpark is not lost |
| Shutdown.StepsAreBounded | src/main.rs:132-137 | only boundedly many steps follow, in any order |
| Shutdown.ShutdownCompletes | src/main.rs:122-141 | every run that goes on until only a timeout is left ends with both threads gone and both joins returned, within nine steps |

## Left out

- HTTP server, routing, metrics endpoint, logging, JSON, protobuf and TOML decoding: requests start as parsed values and end as output values.
- The database drivers, query texts and column names: the store is a map with read and write faults, a refresh is an outcome.
- Delivery by Kafka: publishing records an entry, and its confirmation is an arbitrary choice.
- Secrecy, authenticity and randomness: no claim about AES-GCM, HMAC or the quality of ids and nonces.
- Client address, location and its hash (`set_location`), and the field-by-field copies of device and environment: the device passes through unchanged.
- CORS response headers, HTTP status codes of the errors, and the request counters.
- Atomicity of single store operations: a read and a write are one step each; what happens between them is modelled in full.
- Relaxed memory: the control flag and the park token are sequentially consistent, and a refresh is taken to end without consuming the token.
- The check on CONFIG at start-up and the choice between configured and stored applications: both kinds of table are built by the same fold.
- Base64.Decode: follows what version 0.9 of the base64 library is known to take (padding that is missing or incomplete, unused bits of any value); the library's own code is not part of this model.
- Uuid.Parse: accepts the hyphenated, bare and URN forms; other forms a library may accept are not part of this model.
- Properties.Flatten: objects are sequences of fields in map order; that the map sorts its keys is not used, only that they are distinct where a tree is rebuilt.
- EventBatch.OwnedBatch.SortByTimestamp: states a permutation in order and no more, since the source sorts unstably.
- Gateway.Handler.HandleEvent: requires that the device id header does not panic; the pipeline covers that case.

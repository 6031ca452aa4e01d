# SecureNet: nonces, issuance and certificate rotation

A Dafny model of the two halves of SecureNet that keep each other honest, and proofs about whole
runs of them.

- **The vault.** Single-use nonces in a pruned map (`Nonces`), the three ordered attestation checks
  (`Attestation`), issuance with a wrapping serial counter (`Issuance`, `SerialText`), the JSON-lines
  issuance log (`Json`, `LogEntries`, `Framing`, `IssuanceLogs`) and the request handlers (`Routes`)
  are written as the imperative components they are. `VaultProtocol` then lets any number of handlers
  step in any order over the shared state, with the same relations that the components' methods are
  proved to satisfy, and with every append to the log as it leaves the file, in full or stopped part of
  the way. `VaultNonces`, `HonestClient`, `VaultLog` and `VaultSerials` prove what holds in every run,
  the last two about the text of the log file and what a reader finds in it; `LogFailures` gives the
  runs in which the log falls short of its documentation. `LogWriters` takes the appends themselves
  apart: lines that go out piece by piece while other handlers step. `Handlers` states what one request
  does from start to end, which is the contract of the methods in `Routes`, and proves that it is a run of
  `VaultProtocol`, so that what holds of every run holds of the handlers.
- **The services.** The client half of a renewal (`VaultClients`), the back-off loop and one turn of
  the rotation loop (`Rotation`), booting (`Boot`) and unsealing (`Identity`) are methods again.
  `RotationMachine` is the rotation loop as a timed machine interleaved with the accept loop; on it
  `NoExpiry`, `Outage` and `Recovery` say when an expired certificate is served and for how long, and
  `Snapshots` says what connections and serial readers see and that the interleaved loop computes what
  its cycles compute one after the other. `Turns` proves that one turn of the loop, as the method takes it,
  is a run of the machine, with the sleeps that the method asks for.

## Conventions

Time is in milliseconds on one clock that never runs backwards; vault and services agree on it. The clock
records what is asked of it (`Clocks.Clock.trace`): timers with their durations, calls of the vault and
readings, in order, so that contracts say what was asked for and not only how late it came.
`(ttl as f64 * 0.9) as u64` is `9 * ttl / 10`, with which it agrees for the times to live that occur
(0 to 300). SHA-256 and the rendering of time stamps are arbitrary functions. Random nonces are any 32
bytes, so nothing rests on their being different. Building a TLS config is an arbitrary predicate of the
bundle. In `VaultProtocol` a section that holds the nonce mutex is one step, inside which time may pass.
The pruning order of the hash map is left open, and each entry's age is read at its own time. The log
file may hold anything when the vault starts (`initial`); a completed `write_all` is taken to be in the
file when the mutex is released, although the code never flushes. The theorems about what a reader finds
hold for any encoding of entries that is one line, reads back, and cannot be read with something in front
of it; `IssuanceLogs.JsonIsFaithful` shows that the JSON lines are one.

`NoExpiry` bounds the environment by three numbers: the longest renewal attempt `latency` (both requests
of it), the largest `gap` between a certificate's `not_after` and its bundle's `expires_at`, and the total
`slack` per turn of the loop, which is all time that is neither a sleep asked for nor a renewal attempt:
lateness of timers, processing, waiting for locks. Where attempts take no time the bound of 240 seconds is
exact (`Outage.EnoughIsExact`).

## What the code does and its documentation does not say

- Renewing at 90 % of the life of a certificate is documented to leave time to retry always
  (shared/src/models.rs:67-68). It leaves time for the attempts of one turn of the loop. A turn in which
  all three fail always ends in an outage: `Outage.AttemptAfterFailureIsTooLate` for every run, a
  concrete run in `Outage.OutageHappens`, and in `Outage.ExpiredExactlyWhenACycleFailed` the exact
  condition. `Recovery.OutageEnds` bounds the outage.
- The header of vault-service/src/attestation_verifier.rs:10 speaks of 5 seconds; the code allows 30. The
  comment at line 75 says a nonce is removed on success; it is removed whenever it is presented.
- Every rejection is said to be logged (vault-service/src/log.rs:3); `renew` logs none of its own, and
  neither endpoint logs a failure to issue, which still uses up a serial. A refused request is in the log
  exactly when it came to `unseal` and its append went well (`VaultLog.RefusalInLogExactlyWhen`);
  `LogFailures.RefusedRenewalIsNotLogged` is a run without an entry.
- Every issuance is said to be recorded (vault-service/src/log.rs:3-4). A write error part of the way
  through a line loses the next entry as well, whoever appends it, and so does a file that did not end in a
  newline when the vault started: `LogFailures.TornRefusalLosesGrant` is a run in which a returned bundle
  is missing from the file although the append of its own entry completed. The exact conditions are
  `VaultSerials.ReturnedInFileExactlyWhen` for one bundle, `VaultSerials.NothingLostExactlyWhen` for all of
  them, and `Framing.ReadableExactlyWhenNothingGlued` for the file as a whole.
- The swap of config and serial is called atomic (shared/src/rotation.rs:154); it is two writes, between
  which the serial names the previous config: `Snapshots.SerialLagsBehind` is a run to such a state, and
  `Snapshots.SnapshotsAreLinear` bounds the difference.
- `Serving` is final in the state diagram of shared/src/identity.rs:9-17; a refused clone locks a service
  that already serves (`Identity.RefusedCloneRelocks`). `Identity.ServesForEverExactlyWhenSettled` is the
  exact condition for it to go on.

## Model

| member | source | states |
|---|---|---|
| Hex.DecodeEncode | vault-service/src/routes.rs:31 | Decoding the text of any byte string gives the bytes back, so a client recovers exactly the nonce registered. |
| Hex.EncodeDecode | vault-service/src/attestation_verifier.rs:112 | Whatever text decodes, encoding the bytes gives that text in lower case. |
| Hex.Accepts | vault-service/src/attestation_verifier.rs:112-113 | A nonce text is valid exactly when it has even length and only hexadecimal digits. |
| Hex.SameBytes | vault-service/src/attestation_verifier.rs:112-117 | Two valid spellings name the same nonce exactly when they agree up to case. |
| Hex.DigitsInOrder | vault-service/src/routes.rs:31 | The sixteen digits are 0-9 and a-f in the order of their values. |
| SerialText.TextMeaning | vault-service/src/issuer.rs:126 | For every u64 the serial text has 16 lower-case digits and reads back as the number. |
| SerialText.Injective | vault-service/src/issuer.rs:126 | Serial texts are equal exactly when the serials are. |
| SerialText.OrderPreserving | vault-service/src/issuer.rs:126 | Dictionary order of serial texts is numeric order of serials. |
| Issuance.GapBound | vault-service/src/issuer.rs:68-69 | `expires_at` is never before `not_after`, and later by less than a second plus the time between the two clock readings. |
| Issuance.SerialsCollide | vault-service/src/issuer.rs:67 | Two calls share a serial text exactly when a multiple of 2^64 calls lies between them; the first 2^64 calls never do. |
| Issuance.Issuer.Issue | vault-service/src/issuer.rs:66-143 | One serial is used up even on failure; on success certificate and bundle carry that one serial, the certificate names the service and is valid for 300 whole seconds from the second of a first clock reading, the bundle for 300 seconds from a second one, both inside the call. |
| Issuance.BundleCertifies | vault-service/src/issuer.rs:66-133 | The same of the reference bundle: the text serial reads back as the certificate's serial, which is the number of the call modulo 2^64. |
| Nonces.RegisterRefines | vault-service/src/attestation_verifier.rs:67-72 | Pruning and inserting, with the clock running meanwhile, keeps the map answering as the unpruned history of registrations and consumptions. |
| Nonces.ConsumeRefines | vault-service/src/attestation_verifier.rs:76-82 | Consuming answers true exactly when the latest registration since the last consumption is under 30 s old, and the map still refines the history. |
| Nonces.RegisterExamines | vault-service/src/attestation_verifier.rs:70 | The relation used for a registration says exactly that each entry was examined at some time of its own during the pruning and kept if and only if its window had not passed at that time. |
| Nonces.RegisterBounds | vault-service/src/attestation_verifier.rs:67-72 | After a registration all kept entries were inside the window when pruning began, and they are at most the registrations since 30 s before it began. |
| Nonces.OutstandingCount | vault-service/src/attestation_verifier.rs:56 | Any set of nonces outstanding since a cutoff is no larger than the number of registrations after it. |
| Nonces.NonceStore.Prune | vault-service/src/attestation_verifier.rs:70 | The retain loop, each entry examined at its own time: what stays was fresh at the start, what goes is stale at the end. |
| Nonces.NonceStore.Register | vault-service/src/attestation_verifier.rs:67-72 | The method's effect on the map, its event, the refinement and the size bound; nothing 30 s old at the start stays, nothing younger at the end goes. |
| Nonces.NonceStore.Consume | vault-service/src/attestation_verifier.rs:76-82 | The nonce is gone afterwards in every case and the answer is that of the event history: it was there and under 30 s old. |
| Attestation.Verify | vault-service/src/attestation_verifier.rs:95-144 | Accepted exactly when some allowlist entry is the machine or `dev`, the nonce decodes and is live in the event history, and the quote is empty or the hash of the nonce; otherwise refused with the words of the first check that fails; the store loses exactly the nonce presented. |
| Attestation.ReasonsDiffer | vault-service/src/attestation_verifier.rs:101-136 | The five refusals can be told apart, and name the machine that is not allowed. |
| Attestation.AcceptedExactlyWhen | vault-service/src/attestation_verifier.rs:101-136 | Accepted if and only if allowed, non-empty valid hex, live in the event history and the quote empty or right. |
| Attestation.BurntExactlyWhenPresented | vault-service/src/attestation_verifier.rs:101-117 | The store loses an entry if and only if an allowed machine presents non-empty valid hex naming it; no other entry goes. |
| Attestation.BurntUntilRegistered | vault-service/src/attestation_verifier.rs:115-136 | A presented nonce, accepted or not, is refused at every later time until registered again. |
| Attestation.HonestRequest | shared/src/vault_client.rs:88-108 | A request made in the name of a service on a machine from the nonce text presents exactly the registered bytes with a quote that holds, and a machine on the allowlist is allowed. |
| Attestation.AttestAnswers | shared/src/vault_client.rs:88-108 | Every nonce text of the vault is answered by a request in the caller's name that echoes it, quotes its bytes and carries the marker of the stub. |
| IssuanceLogs.JsonIsFaithful | vault-service/src/log.rs:84-85 | Every entry is one line without a newline and is read back exactly, whatever its strings contain (section 7 of RFC 8259); with anything in front of it on its line it cannot be read. |
| LogEntries.GluedIsUnreadable | vault-service/src/log.rs:84-85 | Whatever non-empty text stands on a line in front of an entry, the start of another entry included, the line does not parse. |
| LogEntries.EncodeIsObject | shared/src/models.rs:139-149 | The line is one JSON object whose members are the fields of the entry, by name and in order. |
| LogEntries.RoundTrip | shared/src/models.rs:139-149 | Decoding the JSON text of an entry gives the entry, all seven fields. |
| Json.EscapesSpelledOut | vault-service/src/log.rs:84 | Each character is escaped as section 7 of RFC 8259 has it, in the short forms where there are any. |
| Json.ReadBackQuoted | vault-service/src/log.rs:84 | Reading a quoted string gives back the string and exactly what followed it. |
| Framing.ReadableExactlyWhenNothingGlued | vault-service/src/log.rs:113-127 | Whatever the file held, its lines are those it had and then the completed appends in order, if and only if it did not stop inside a line at first and no append that stopped inside its line precedes a completed one. |
| Framing.RestOfFile | vault-service/src/log.rs:113-127 | The file ends inside a line exactly when an append stopped there since the last completed one, or it did so at first and none has completed. |
| IssuanceLogs.OwnLineReads | vault-service/src/log.rs:113-127 | The line that a completed append ends reads as its entry if the file was then at the end of a line, and as nothing otherwise. |
| IssuanceLogs.ReadsAsExactlyWhenNothingGlued | vault-service/src/log.rs:83-128 | The file reads as before and then as exactly the completed entries in order if and only if nothing was glued. |
| Framing.TornWriteLosesNextLine | vault-service/src/log.rs:120-122 | A write that fails after one character swallows the next line, in a file that ended where a line ends. |
| IssuanceLogs.IssuanceLog.Append | vault-service/src/log.rs:83-128 | The file grows at its end by the entry's line and a newline, or by the line's first characters when writing fails. |
| IssuanceLogs.IssuanceLog.RecordGrant | vault-service/src/log.rs:44-61 | One append of an entry that grants this service on this machine this serial, with its expiry, no reason, and the time of the call. |
| IssuanceLogs.IssuanceLog.RecordRejection | vault-service/src/log.rs:64-80 | One append of an entry that refuses this service on this machine for this reason, with empty serial and two time stamps read in turn during the call. |
| LogWriters.AppendOnly | vault-service/src/log.rs:3-4 | Over any interleaving of appends, errors included, earlier file contents are a prefix of later ones. |
| LogWriters.ReadsBackInLockOrder | vault-service/src/log.rs:103-127 | At every moment of every interleaving, whatever the file held and however much of a line is half out: it reads as before and then as exactly the visible entries in lock order, if and only if nothing torn, from before or from an append, precedes a completed append. |
| LogWriters.ReadsBackWithoutErrors | vault-service/src/log.rs:102-127 | Without write errors the file so reads at every moment exactly when it ended where a line ends before the first append, or no entry is out yet. |
| LogWriters.IssuanceLogReadsBack | vault-service/src/log.rs:83-128 | The same for the JSON lines actually written. |
| LogWriters.AppendIsARun | vault-service/src/log.rs:83-128 | An append run from start to end is a run of the piecewise machine, with the same file and appends. |
| Routes.AppState.FreshNonce | vault-service/src/state.rs:47-53 | 32 bytes are drawn and registered by one registration. |
| Routes.AppState.Nonce | vault-service/src/routes.rs:27-34 | The 64 lower-case digits replied decode to the 32 bytes that were registered. |
| Routes.AppState.Unseal | vault-service/src/routes.rs:46-90 | A refusal is replied with the reason of the check, logged with it in the requester's names, and uses no serial; a failed issue uses a serial, reports its step and logs nothing; a grant is one issue to the requesting service, and one append that grants it that call's serial, stamped before the reply. |
| Routes.AppState.Renew | vault-service/src/routes.rs:103-133 | As unseal, but a refusal leaves the log alone. |
| Handlers.HandlerIsARun | vault-service/src/routes.rs:46-133 | Whatever `Unseal` or `Renew` does from start to end, the interleaved machine can do from any state that holds the same, and ends holding the same where the same reply was sent. |
| Handlers.NonceIsARun | vault-service/src/state.rs:47-53 | The same for the handler that draws, registers and sends a nonce. |
| VaultNonces.ChecksFollowHistory | vault-service/src/routes.rs:46-65 | In every reachable state of any number of handlers, a check accepts exactly when the event history, the allowlist and the quote say so. |
| VaultNonces.OwnRegistrations | vault-service/src/routes.rs:103-121 | In every reachable state each admitted request spent a registration of its own bytes, under 30 s old, and no two spent the same one. |
| VaultNonces.NoMoreThanRegistered | vault-service/src/attestation_verifier.rs:107-117 | Per byte string, across spellings and endpoints, admissions never exceed registrations; certificates never exceed registrations. |
| VaultNonces.StoreBounded | vault-service/src/attestation_verifier.rs:67-82 | In every reachable state the map is no larger than the registrations since 30 s before its last pruning began, and only registering enlarges it. |
| VaultLog.InLogExactlyWhen | vault-service/src/log.rs:83-128 | In every run a reader finds what a handler appended if and only if the append completed and no unfinished line, of any handler's append or from before the start, stood before it. |
| VaultLog.RefusalInLogExactlyWhen | vault-service/src/routes.rs:52-64 | A refused request has its entry, with its own reason and names, in the file if and only if it came to `unseal` and its append completed with nothing unfinished before it; a refused renewal never appends. |
| VaultSerials.SerialsConserved | vault-service/src/routes.rs:68-89 | In every reachable state the serials handed out are the disjoint union of those logged, pending, failed in `issue` and lost to the log, also in number; up to 2^64 calls, those logged are exactly those a reader finds granted in the file. |
| VaultSerials.FoundSerialsDistinct | vault-service/src/log.rs:44-61 | Up to 2^64 issue calls, no two grants that a reader finds have the same serial. |
| VaultSerials.ReturnedMeansAppended | vault-service/src/routes.rs:119-132 | A returned bundle was preceded by an append of an entry with its serial, service and machine. |
| VaultSerials.ReturnedInFileExactlyWhen | vault-service/src/routes.rs:119-132 | A reader finds the serial of a returned bundle if and only if the append of its entry completed and nothing unfinished stood before it. |
| VaultSerials.NothingLostExactlyWhen | vault-service/src/log.rs:113-127 | No returned bundle is missing from the file exactly when every append of a grant completed with nothing unfinished before it. |
| VaultSerials.NothingLostWithoutErrors | vault-service/src/log.rs:3-4 | If no append of a grant or of a refusal failed and the file ended where a line ends, the file reads as before and then as exactly the entries appended, and no returned bundle is missing. |
| LogFailures.TornRefusalLosesGrant | vault-service/src/log.rs:120-122 | A run in which a refusal stops after one character, the next grant's append completes and its bundle is returned, and a reader finds nothing. |
| LogFailures.RefusedRenewalIsNotLogged | vault-service/src/routes.rs:110-117 | A run that refuses a renewal and appends nothing. |
| HonestClient.HonestClientAdmitted | vault-service/src/state.rs:47-53 | Whatever others do in between, an allowed client that quotes its nonce and is checked within 30 s is admitted if nobody else presented that nonce; in any case exactly while the nonce is live. |
| HonestClient.StaysOutstanding | vault-service/src/attestation_verifier.rs:67-72 | A registered nonce that nobody takes stays outstanding, never older than its registration, over any run. |
| VaultClients.HttpVaultClient.Attempt | shared/src/vault_client.rs:84-135 | A bundle is returned exactly when all exchanges succeed, and each failure with its own error; what is posted is a request in the client's own service and machine name, honest for the nonce received; the stored bundle changes exactly on success. |
| Rotation.RetryRenew | shared/src/rotation.rs:184-209 | First successful reply or failure of all attempts; the timers asked for are 2, 4, 8, ... seconds, one between two calls and none after the last; a panic when doubling overflows. |
| Rotation.AttemptsAsk | shared/src/rotation.rs:189-200 | `k` attempts ask for 2^k - 2 seconds of pauses altogether. |
| Rotation.DelayFitsBelow63 | shared/src/rotation.rs:189-200 | The delay of 2^k seconds can be doubled in 64 bits exactly below k = 63. |
| Rotation.OverflowExactlyWhen | shared/src/rotation.rs:198-201 | The doubling overflows for some attempt exactly when more than 63 attempts are allowed and the first 63 fail. |
| Rotation.RotationTask.Cycle | shared/src/rotation.rs:129-180 | One turn of the loop: it asks to sleep 90 % of the time to live in whole seconds, then calls the vault up to three times, 2 and 4 seconds apart; which bundle is taken, what is written when it builds, does not build or never came, and when its time to live is read. |
| Rotation.SleepsNinetyPercent | shared/src/rotation.rs:131 | The sleep of the timed machine is that of the method: 90 % of the time to live, rounded down to seconds. |
| Turns.TurnIsARun | shared/src/rotation.rs:127-180 | A turn of the loop, with the pauses it asks for, is a run of the timed machine from any state between cycles, to the state that the turn leaves. |
| Rotation.InstalledAndStored | shared/src/rotation.rs:142-171 | After any cycles the installed config is the newest bundle that built and the stored bundle the newest returned. |
| Rotation.DifferExactlyWhenNewestIsBad | shared/src/vault_client.rs:128-134 | When the bundles come from different calls of `issue`, none a multiple of 2^64 calls apart, installed and stored differ exactly while the newest bundle returned did not build. |
| Boot.Run | shared/src/boot.rs:62-109 | Booting succeeds exactly when the vault sends a bundle that builds; then config, serial, stored bundle and first sleep all come from it, and the rotation renews in the name of the same service on the same machine. |
| Snapshots.SnapshotsAreLinear | shared/src/rotation.rs:82-89 | Each connection has the config current when it read, indices never decrease in accept order, and the serial names the current config or its immediate predecessor. |
| Snapshots.SerialLagsBehind | shared/src/rotation.rs:154-157 | A run to a state in which the serial is not that of the config on offer. |
| Snapshots.ConnectionKeepsItsConfig | user-service/src/main.rs:135-141 | A connection accepted at a step has that step's config ever after. |
| Snapshots.LoopRefinesCycles | shared/src/rotation.rs:127-180 | At every point of every interleaving the shared state is that of the finished cycles run one after the other plus the writes already made. |
| Snapshots.InstalledIsNewestBuildable | shared/src/rotation.rs:142-171 | Between cycles of any interleaved run: installed is the newest buildable, stored the newest returned, and they are the same unless the newest did not build. |
| Snapshots.StoredDiffersExactlyWhen | shared/src/vault_client.rs:128-134 | Between cycles of any run whose answers come from different calls of `issue`, stored and installed differ exactly while the newest did not build. |
| NoExpiry.FreshIsLongEnough | shared/src/rotation.rs:131-137 | The arithmetic of one renewal: sleeping 90 % of the truncated time to live leaves three attempts, their back-offs and the slack. |
| NoExpiry.NeverExpired | shared/src/rotation.rs:127-180 | If 31 latency + 10 gap + 20 slack is at most 240 s and no cycle so far failed wholly or got a bad bundle, the certificate on offer is unexpired at every moment. |
| NoExpiry.ConnectionsUnexpired | user-service/src/main.rs:135-141 | In such a run no accepted connection ever read a config past its `not_after`. |
| Outage.SleepTooLong | shared/src/rotation.rs:131-137 | For every remaining life up to 300 s, the sleep plus 6 s plus 27 s exceeds it. |
| Outage.AttemptAfterFailureIsTooLate | shared/src/rotation.rs:174-178 | In every run, timely or not, an attempt after a wholly failed cycle begins past `expires_at`. |
| Outage.ExpiredExactlyWhenACycleFailed | shared/src/models.rs:65-73 | In timely runs with buildable bundles, looked at during an attempt, an expired certificate was on offer if and only if a cycle wholly failed. |
| Outage.OutageHappens | shared/src/models.rs:67-68 | A concrete timely run with a vault down for 6 s in which the certificate expires at 300 s and the next attempt begins at 303 s. |
| Outage.EnoughIsExact | shared/src/rotation.rs:127-180 | Where attempts take no time and gaps are under a second, timely runs without a wholly failed cycle or bad bundle are all free of expiry if and only if the bound of 240 s holds. |
| Recovery.OutageEnds | shared/src/rotation.rs:174-178 | Once every new attempt succeeds, an expired certificate is on offer for at most 27 s + 2 latency + 2 slack more, from whichever state of the loop. |
| Identity.ServiceIdentity.Unseal | shared/src/identity.rs:99-179 | What is posted is honest and in the service's name; state and bundle after each answer of the vault: only an error status restores `Locked`, other failures leave `Unsealing`. |
| Identity.UnsealIsARun | shared/src/identity.rs:99-179 | The unsealing of one task is a run of the machine of clones, ending in the same state and bundle. |
| Identity.ServingHasBundle | shared/src/identity.rs:78-85 | Over all interleavings of clones and readers, `Serving` implies a stored bundle the vault sent, a reader that saw `Serving` reads one, and without a reply the service never serves. |
| Identity.ServesForEverExactlyWhenSettled | shared/src/identity.rs:99-179 | A serving service serves in every continuation in which no further clone starts to unseal if and only if no clone is waiting to enter `unseal`, to hear from the vault, or to lock it. |
| Identity.RefusedCloneRelocks | shared/src/identity.rs:155-157 | A run in which a refused second clone locks a service that serves and holds its bundle. |

## Left out

- X.509 building, PEM parsing and rustls configs: library internals; a TLS config is identified with the bundle it is built from.
- JWT signing, passwords, proxying, order and user lookups, telemetry, Secure Boot reads, environment variables and the chaos injector: no property of the protocol or the rotation depends on them.
- The revocation list and the issued counter (vault-service/src/state.rs:56-78): plain set and counter operations that the handlers shown never consult.
- Outbound mTLS clients and the serials of health endpoints: built once from the boot bundle and never refreshed; the expiry theorems are about inbound configs.
- Serial uniqueness across restarts of the vault: the counter is local to the process.
- The buffering inside `tokio::fs::File`: a completed `write_all` is taken to be in the file when the mutex is released.
- Aliasing of the `Arc`s: the components are shared by reference in `Routes` and `Rotation`, and in the interleaved machines the shared state is one value that every step reads and replaces.
- Cancellation of requests: a handler of `VaultProtocol` may stop stepping for ever, which covers one dropped between steps, but not one dropped while it waits inside a mutex section.
- CertBundle::renew_at: not called; its promise is examined in `Outage`.
- The accept loops as methods: accepting a connection is the `Accept` step of `RotationMachine`, because it only matters interleaved with the rotation loop.
- NoExpiry.NeverExpired: its bound suffices for every environment and is shown to be exact only where attempts take no time; with latencies, truncation to whole seconds enters the exact limit.

# Verification model of frost-k8s-threshold-signing

This project models the distributed key generation, the threshold signing protocol and the encodings
of frost-k8s-threshold-signing in Dafny, and proves what they guarantee. `dafny verify dfyconfig.toml`
checks it.

## What is modelled

**Arithmetic.** `Zq` is the field of scalars for an arbitrary prime `Q`: the constant has no value, and
inverses and the absence of zero divisors are proved from primality. `Group` is an arbitrary module
over it, generated by its base element; `ScalarGroupLawful` shows that the laws can be met, with and
without a readable identity.
`Polynomial` and `Lagrange` hold Horner's rule, the root bound and interpolation. The threshold and
the number of signers are parameters; the source fixes them at 3 and 5.

**Key generation.** `Dkg` is one participant (`internal/dkg/dkg.go`) as a class proved against
specification functions, and `DkgOutcomes` says exactly what these come to, in terms of the fields of
the messages. `DkgCeremony` holds the `/dkg` handlers of a signer and the coordinator that drives the
four phases. `DkgTheorems` and `Reconstruction` say what secret a committee of signers recovers, and
`Feldman` relates shares to commitments. `CeremonyRuns` lets other clients call `/dkg/round1` and
`/dkg/commitments` at any moment, `CeremonyOutcome` says what any such run leaves, `OtherRequests` what
such a call can do at any moment, and `LateRequests` constructs runs that go wrong. `CeremonySigning`
signs with the key shares computed.

**Signing.** `Frost` is the algebra of sections 4.2, 4.4 to 4.6 and 5.1 to 5.4 of RFC 9591, with the
hashes as arbitrary functions. `Signers` holds the `/commit` and `/sign` handlers and the aggregation;
`SignOutcomes` says exactly what they answer, in definitions of its own written out over the hashes.
`Gather` holds the two parallel collections of the proxy with their buffered channels, and
`SigningSystem` any number of proxies and other clients in any interleaving, in which a signer's
handling of a request and the collector's receiving of the answer are separate steps; `SigningSafety`,
`SigningRuns`, `Isolation` and `SessionProgress` say what holds over all runs. `Coordinator` is the
sequential flow of `cmd/coordinator/main.go` and `cmd/frostlab/main.go`, `Proxy` the signing function of
`cmd/grpc-proxy/main.go`, and `ProxyRuns` joins it to the sessions of the runs.

**Encodings.** `Wire` (hexadecimal and fixed-width scalars), `Base64Url` with `Base64Bits`, `P1363` and
`Token`. The repository contains no base64url decoder. The one here is that of Go's
`base64.RawURLEncoding`, which skips line breaks and ignores left-over bits; `Base64Url.SameBytesIff`
says exactly which texts it takes for the same bytes.

## Findings

- The coordinator of the key generation also collects each signer's package to itself
  (`cmd/dkg-coordinator/main.go:94-103`), and `Finalize` adds the own share before the packages
  (`internal/dkg/dkg.go:93-109`): the own share counts twice. A committee then recovers the group secret plus a
  correction, and its key shares fit the published group key exactly when the correction is zero
  (`DrivenCeremony`); that is so for exactly one in `Q` choices of any one member's constant term
  (`OneConstantInQ`), and never when all signers choose the same polynomial with a non-zero constant
  term (`DrivenCeremonyFails`). With packages from the other participants only, the shares always fit
  (`PeerCeremony`).
- "DKG Ceremony Complete" (`cmd/dkg-coordinator/main.go:117`) says that every call got through, not
  that every signer has computed a key share: `postJSON` ignores the status. A signer has one exactly
  when every commitment it holds starts with a readable point, it has a participant and the packages
  for it decode (`ComputedShareIff`, and `FinalShare` for every run). For all polynomials with readable
  constant terms there is a completed run in which one signer has none (`LateCommitmentsBreak`).
- Another client can abort a ceremony with one request. `/dkg/commitments` decodes a list of pointers, so
  that the body `[null]` is answered 200 and leaves a nil entry. The coordinator's next
  `/dkg/finalize` dereferences it (`internal/dkg/dkg.go:126`), the handler panics, the connection breaks and
  the coordinator exits. In every run its next call panics exactly at a signer that holds a nil entry
  before every other commitment without a readable point (`CallPanicsIff`). One late request lets the
  ceremony complete exactly when it leaves no such entry (`LateRequestCompletes`, `LateNilAborts`,
  `NullBodyAborts`).
- "Each signer now holds an independent key share" (`cmd/dkg-coordinator/main.go:118`) does not follow
  either. `/dkg/finalize` computes the share, logs its beginning, answers a status and keeps nothing
  (`cmd/signer/main.go:144-155`), and no code signs with it. The statements about the keys of a ceremony are
  about the shares computed.
- A signer's polynomial is replaced by any later `/dkg/round1`. Its messages fit the installed
  polynomial exactly when this has the coefficients drawn for the coordinator and the packages have
  its values (`CurrentIffSameValues`). In every completed run whose commitments were left alone a
  committee recovers the secret of the polynomials drawn, plus the correction above, plus a drift that
  is the interpolated difference of the values used to those of the polynomials drawn, and that fits the
  group key exactly when correction and drift cancel (`CommitteeFitsIff`). One late call makes fitting
  keys unfit whenever it changes the called signer's own value (`LateRound1Breaks`; there are such
  ceremonies for every threshold and committee, `LateRound1Example`).
- A session of the proxy can be refused a share only because its commitment was used before
  (`RefusedOnlyIfUsed`). Other sessions never do that (`NoRequestRefused`), but another client of
  `/sign` always can (`OthersCanCauseRefusal`). Without such a client, a session that is over has a
  signature exactly when at least t of its /commit calls got through both ways and none of its /sign
  calls was lost (`SessionSignsIff`); a lost answer to /sign has still cost the signer's nonce.

## Assumptions

- The FROST library is not part of the repository. `Commit` draws an identifier that its signer has
  not used; `Sign` checks the size of the list, that no signer is in it twice, and that its own
  commitment is one it handed out and has not used, and deletes the nonces it uses; aggregation checks
  every share and the result (sections 5.1 to 5.4 of RFC 9591). Sorting is by signer.
- Decoding a group element inverts encoding, except that the identity may be rejected (section 3.1 of
  RFC 9591); encoding does not fail. The library's texts of commitments and shares are decoded by
  inverses of their encoders, where a commitment's text may be rejected.
- A remote call succeeds with its value or fails. Random numbers are parameters, without any
  condition beyond their number, so statements hold for all choices.

## Model

| member | source | states |
|---|---|---|
| Polynomial.Evaluate | internal/dkg/dkg.go:68-74 | Horner's rule, reducing at every step, yields the power sum of the coefficients modulo Q |
| Polynomial.RootBound | internal/dkg/dkg.go:43-50 | a polynomial with as many distinct roots as coefficients is zero modulo the prime Q |
| Lagrange.LagrangeAtZero | internal/dkg/dkg.go:68-83 | any t distinct signers' shares, weighted with the interpolating values of section 4.2 of RFC 9591, add up to the constant term |
| Lagrange.EverySecretOneExplanation | internal/dkg/dkg.go:43-83 | for t - 1 distinct non-zero recipients, any t - 1 share values and any secret, exactly one t-coefficient polynomial has that constant term and those shares |
| Wire.ShareRoundTrip | internal/dkg/dkg.go:74-82 | the text of a share parses back to the scalar, for every scalar |
| Wire.ShareCanonical | internal/dkg/dkg.go:101-108 | a text that parses as a share is, up to the case of its letters, the only text of that scalar |
| Wire.ParseShareIff | internal/dkg/dkg.go:101-108 | a text parses as a given share exactly when it is the text of that scalar up to the case of its letters |
| Wire.ShareTextDigits | internal/dkg/dkg.go:74-82 | the text of a share digit by digit: the bytes of the scalar from the least significant on, two lower-case digits each, the upper half first |
| Wire.HexReadableIff | internal/dkg/dkg.go:101-132 | a text is hexadecimal exactly when its length is even and all its characters are digits or letters a to f, of either case |
| Wire.ScalarBytesLeast | internal/dkg/dkg.go:74 | a scalar is encoded in the least number of bytes that hold every scalar |
| Dkg.PointRoundTrip | internal/dkg/dkg.go:54-59 | the text of a commitment parses back to the element; only the identity's may be rejected |
| Dkg.Participant.constructor | internal/dkg/dkg.go:32-41 | a new participant has its identity and sizes and no polynomial |
| Dkg.Participant.Round1 | internal/dkg/dkg.go:43-66 | the random coefficients become the polynomial; the answer carries the participant's identifier and the hexadecimal text of every coefficient times the base, in order |
| Dkg.Participant.Round2 | internal/dkg/dkg.go:68-83 | the package names its sender and recipient and holds the power-sum value of the polynomial at the recipient, and without a polynomial there is an error; no state changes |
| Dkg.Participant.Finalize | internal/dkg/dkg.go:85-121 | the own share plus the packages addressed to the participant, or the first error or panic, as the next three rows spell out; sender ids and commitments play no part |
| DkgOutcomes.FinalizedSum | internal/dkg/dkg.go:91-120 | finalisation succeeds exactly when no entry is nil and every package addressed to the participant holds a scalar; the secret is then the power sum at its own identifier plus these scalars, the public key that secret times the base |
| DkgOutcomes.FinalizedError | internal/dkg/dkg.go:97-108 | otherwise the first entry that is nil, or addressed to it without a scalar, decides: a panic, an error of the hexadecimal text or one of the scalar |
| DkgOutcomes.ForeignIgnored | internal/dkg/dkg.go:98-100 | a package with another recipient, decodable or not, changes neither the share nor the error, wherever it stands |
| Dkg.ComputeGroupPublicKey | internal/dkg/dkg.go:123-140 | the sum of the first commitments, or the first error or panic, as the next three rows spell out |
| DkgOutcomes.GroupKeyIff | internal/dkg/dkg.go:125-136 | there is a key exactly when every entry is there, is not empty, and its first text is the hexadecimal text of bytes that decode to a point |
| DkgOutcomes.GroupKeySum | internal/dkg/dkg.go:124-139 | it is then the sum of these points |
| DkgOutcomes.GroupKeyError | internal/dkg/dkg.go:126-136 | otherwise the first entry that fails decides: a panic for nil, an error with the identifier of its participant for an empty list, an error of the text or of the point |
| DkgTheorems.FinalizeOrder | internal/dkg/dkg.go:97-110 | success and result depend only on which entries concern the participant, being addressed to it or nil, and it succeeds exactly when all of these decode |
| DkgTheorems.AddressedPermuted | internal/dkg/dkg.go:97-100 | a permutation of the packages has the same addressed packages |
| DkgTheorems.InsertForeign | internal/dkg/dkg.go:98-100 | a package with another recipient may be inserted anywhere without changing which entries concern the participant |
| DkgTheorems.FirstErrorIff | internal/dkg/dkg.go:97-108 | there is an error or a panic exactly when some entry that is nil or addressed to the participant holds no scalar |
| DkgTheorems.PeerShare | internal/dkg/dkg.go:91-119 | with one package from every other participant, in any order and among any others, the secret is F(i) for the sum F of all polynomials |
| DkgTheorems.DrivenShare | cmd/dkg-coordinator/main.go:94-115 | with everybody's package, the own one included, the secret is F(i) + f_i(i) |
| DkgTheorems.GroupKeyIsJoint | internal/dkg/dkg.go:123-140 | for honest commitments the group key is F(0) times the base; it is an error exactly when a constant term is zero and the identity is not readable |
| DkgOutcomes.GroupKeyOrder | internal/dkg/dkg.go:125-139 | the key does not depend on the order of the commitments and exists exactly when every entry starts with a readable point |
| Reconstruction.PeerCeremony | internal/dkg/dkg.go:85-140 | with packages from the other participants only, every committee of at least t recovers F(0), and every key share's verification key is F(0) times the base; all succeed exactly when the constant terms can be read |
| Reconstruction.UnpublishedExample | internal/dkg/dkg.go:133-136 | the error case is real: a lawful group that rejects its identity, and zero constant terms |
| Reconstruction.DrivenCeremony | cmd/dkg-coordinator/main.go:94-115 | as the coordinator drives it, a committee recovers F(0) plus the interpolated own values, and this fits the group key exactly when that correction is zero |
| Reconstruction.DrivenCeremonyFails | cmd/dkg-coordinator/main.go:94-115 | for all identifiers and committees, equal polynomials with a non-zero constant term hand out shares that do not fit the group key |
| Reconstruction.OneConstantInQ | cmd/dkg-coordinator/main.go:94-115 | whatever else is chosen, exactly one constant term of a given committee member makes the correction zero |
| Feldman.OnlyHonestShareConsistent | internal/dkg/dkg.go:52-74 | a share passes the check of appendix C.2 of RFC 9591 against the commitments exactly when it is the polynomial's value |
| Feldman.CommitmentTexts | internal/dkg/dkg.go:52-60 | the broadcast texts decode to the commitments, one a coefficient |
| Feldman.PublicKeyFromCommitments | internal/dkg/dkg.go:112-119 | for peer packages the public key of the final share is the double sum of all commitments at the participant's identifier |
| DkgCeremony.DkgSigner.Round1 | cmd/signer/main.go:78-93 | a new participant with a new polynomial replaces the old one; held commitments stay |
| DkgCeremony.DkgSigner.Commitments | cmd/signer/main.go:95-106 | the received list, nil entries included, replaces the one held; the participant stays |
| DkgCeremony.DkgSigner.Round2 | cmd/signer/main.go:108-126 | the installed polynomial's package, an error for an identifier over 16 bits, a panic without a participant; nothing changes |
| DkgCeremony.DkgSigner.Finalize | cmd/signer/main.go:128-156 | the share computed for the group key of the held commitments, which the handler neither answers nor keeps; otherwise the first error or panic that it meets |
| DkgCeremony.ComputedShareIff | cmd/signer/main.go:138-149 | there is a share exactly when every held commitment starts with a readable point, there is a participant and the packages that concern the signer hold scalars |
| DkgCeremony.PanicIff | internal/dkg/dkg.go:94-126 | the handler panics exactly when a nil commitment comes before every other unreadable one, or all are readable and there is no participant or a nil package comes before every undecodable one |
| DkgCeremony.KeyErrorAnswered | cmd/signer/main.go:138-143 | the first held commitment without a readable point decides what the handler answers, before a missing participant and any package |
| DkgCeremony.PackageErrorAnswered | cmd/signer/main.go:144-149 | with all commitments readable, a missing participant or else the first unusable package does |
| DkgCeremony.CollectCommitments | cmd/dkg-coordinator/main.go:69-80 | calls one signer after the other up to the first call that fails; exactly the signers called have their new polynomial, with the commitments they held, and the list is theirs in signer order |
| DkgCeremony.Broadcast | cmd/dkg-coordinator/main.go:82-89 | likewise; exactly the signers called hold the list, and no polynomial has changed |
| DkgCeremony.CollectRow | cmd/dkg-coordinator/main.go:95-103 | one signer's packages, each added to those of its target, up to the first call that fails |
| DkgCeremony.CollectShares | cmd/dkg-coordinator/main.go:91-105 | the transpose of the share matrix: every target has one package from every signer, in signer order, each addressed to it; or the first call, row by row, that fails |
| DkgCeremony.DistributeShares | cmd/dkg-coordinator/main.go:107-115 | every signer computes from the list of its own target, and an error it answers does not stop the delivery; the first lost call or panic does |
| DkgCeremony.RunCeremony | cmd/dkg-coordinator/main.go:65-120 | stops at the first call that does not get through, in the order of the four phases, with exactly the polynomials and commitments installed before it; completes when there is none; what the signers compute is that of the ceremony of the chosen polynomials |
| DkgCeremony.CompletedCeremony | cmd/dkg-coordinator/main.go:107-119 | in a completed ceremony the signers finalise exactly when the constant terms can be read, with the keys of the driven ceremony |
| CeremonyRuns.RunInv | cmd/signer/main.go:78-156 | in every state of every run, with any Round1 and commitments posts of other clients: how far each phase has got, and from which polynomials and states every message and key share was computed |
| CeremonyRuns.CallPanicsIff | internal/dkg/dkg.go:125-126 | in every state of every run, the next call of the coordinator panics exactly when it delivers packages to a signer with a nil commitment before every other unreadable one |
| CeremonyRuns.NeverPanics | cmd/signer/main.go:118-144 | so it never does at a signer that nobody else has given commitments since the broadcast |
| CeremonyRuns.CurrentIffSameValues | cmd/signer/main.go:78-93 | in every state of every run, the commitment and packages collected from a signer are those of its installed polynomial exactly when this is the one drawn for the coordinator and the packages have its values |
| CeremonyRuns.CurrentIfUndisturbed | cmd/signer/main.go:78-126 | so they are whenever nobody else has called the signer's Round1 since |
| OtherRequests.OthersAnytime | cmd/signer/main.go:78-106 | in every state of every run, any Round1 and any commitments post of another client to a signer is possible, and changes nothing but what this signer holds |
| OtherRequests.OtherRound1Breaks | cmd/signer/main.go:78-93 | wherever a run has got to after the coordinator's Round1 at a signer, another client's Round1 there is possible, and with another polynomial the messages collected no longer fit |
| CeremonyOutcome.RunCompletes | cmd/dkg-coordinator/main.go:65-120 | a run whose coordinator has made all its calls ends in a completed state, which the following rows are about |
| CeremonyOutcome.FinalShare | cmd/signer/main.go:128-156 | in every completed run, a signer has computed a key share exactly when every commitment it held starts with a readable point; its secret is its own value plus the values behind the packages, its verification key the sum of those points |
| CeremonyOutcome.FinalKey | internal/dkg/dkg.go:123-140 | with the coordinator's commitments, the verification key is the sum of the drawn constant terms times the base |
| CeremonyOutcome.CommitteeFitsIff | cmd/signer/main.go:78-156 | in every completed run with the coordinator's commitments, a committee recovers the drawn secret plus correction plus drift, and this fits the group key exactly when correction and drift cancel |
| CeremonyOutcome.UndisturbedCeremony | cmd/dkg-coordinator/main.go:69-115 | undisturbed, the commitments everybody holds, the packages and the key shares are those of the ceremony of the polynomials drawn, which are still installed |
| CeremonyOutcome.UndisturbedDrift | cmd/dkg-coordinator/main.go:69-115 | and the drift is zero |
| LateRequests.LateRequestCompletes | cmd/dkg-coordinator/main.go:65-120 | for all polynomials and any one request of another client after the packages are collected, the run with just this request completes exactly when the request does not leave a nil commitment before every other unreadable one |
| LateRequests.LateNilAborts | internal/dkg/dkg.go:125-126 | otherwise a run leads to the delivery at that signer, with key shares at the signers before it only, and the call panics |
| LateRequests.NullBodyAborts | cmd/signer/main.go:98-104 | the body `[null]` is such a request |
| LateRequests.LateRound1Fits | cmd/signer/main.go:78-93 | after a late Round1 at a committee member every signer has a key share, and the committee's secret fits the group key exactly when the correction and the member's weighted change of value cancel |
| LateRequests.LateRound1Breaks | cmd/signer/main.go:78-93 | where the undisturbed keys fit, one late Round1 with another value at the member leaves keys that do not |
| LateRequests.LateRound1Example | cmd/signer/main.go:78-93 | such ceremonies exist for every threshold and committee in every lawful group; a one-member committee needs a readable identity |
| LateRequests.LateCommitmentsBreak | cmd/dkg-coordinator/main.go:107-119 | after a late post of commitments with an unreadable entry and no nil one before it the ceremony completes, without a key share at that signer and with one at every other |
| Frost.Context.CommitmentIsExponent | cmd/grpc-proxy/main.go:152-173 | the group commitment of honest signers is the sum of their bound nonces times the base (section 4.5 of RFC 9591) |
| Frost.Context.ShareVerifiesIff | cmd/grpc-proxy/main.go:172 | the check of section 5.4 of RFC 9591 passes the share of the signer that knows the nonces and the secret, and no other scalar, whatever the other entries are |
| Frost.Context.AggregateVerifiesIff | cmd/grpc-proxy/main.go:152-173 | for signers with any secrets, the aggregate verifies exactly when the challenge annuls the error of the interpolated secret |
| CommitmentList.SortSorts | cmd/signer/main.go:63 | sorting keeps the commitments and orders them by signer |
| CommitmentList.SortAgrees | cmd/grpc-proxy/main.go:153-161 | any two arrival orders, and any sorting algorithm, lead to one and the same list when the signers are distinct |
| Signers.Signer.Commit | cmd/signer/main.go:32-44 | the answer commits to the hiding and the binding nonce under a new identifier; nonces and commitment are recorded, everything else stays |
| Signers.Signer.Sign | cmd/signer/main.go:46-76 | a share for the sorted list, for which exactly the own nonce is given up, or the first error, for which nothing changes, as the next three rows spell out |
| SignOutcomes.HandledIff | cmd/signer/main.go:54-62 | a request is malformed exactly when one of its texts cannot be decoded; otherwise the list is that of the decoded texts, in order |
| SignOutcomes.SignedIff | cmd/signer/main.go:63-69 | a list is signed exactly when its size is within bounds, no signer is in it twice and it holds an unused commitment of the signer; and which error is returned when not |
| SignOutcomes.SignedChecks | cmd/signer/main.go:64 | the share returned satisfies, as the only scalar, hiding + rho * binding + lambda * c * public key for the binding factor of the key, message, sorted list and signer, and the challenge of the group commitment, key and message (sections 4.4 to 4.6, 5.2 and 5.4 of RFC 9591); exactly the nonce of the listed commitment is given up |
| Signers.CommitKeeps | cmd/signer/main.go:32-44 | committing keeps the books: handed out equals outstanding plus used, and nothing is forgotten |
| Signers.SignKeeps | cmd/signer/main.go:46-76 | so does signing, whatever a client sends; a share uses up one outstanding nonce whose commitment is in the list |
| Signers.AggregateSignature | cmd/grpc-proxy/main.go:152-173 | malformed texts fail; otherwise the verified aggregate of the decoded shares over the sorted decoded commitments, as the next three rows spell out |
| SignOutcomes.AggregateIff | cmd/grpc-proxy/main.go:161-172 | a signature is returned exactly when the list is well-formed, every share passes its check, written out over the hashes, and the sum satisfies the Schnorr equation; it consists of the group commitment and that sum |
| SignOutcomes.AggregateErrors | cmd/grpc-proxy/main.go:172 | otherwise the error is that of the list, of the first share that fails, by its signer, or of the signature, in this order |
| SignOutcomes.DealtAggregate | cmd/grpc-proxy/main.go:163-172 | for dealt signers and any shares whatever: the first share that is not the one its signer makes is refused with the name of its signer, and there is a signature exactly when all are honest and add up to what one from each signer does |
| HonestSigning.HonestAggregate | cmd/grpc-proxy/main.go:152-210 | for every dealing, every list of at least t distinct signers in any order, every message and nonces, and the shares in any order, aggregation succeeds and z * B == R + c * key |
| CeremonySigning.CommitteeVerifiesIff | cmd/grpc-proxy/main.go:152-173 | with the keys of a ceremony, a committee's signature verifies exactly when the challenge annuls the error of the recovered secret |
| CeremonySigning.PeerSharesSign | internal/dkg/dkg.go:85-121 | keys finalised from the other participants' packages sign, for every committee, message and nonces |
| CeremonySigning.PeerKeysDealt | internal/dkg/dkg.go:112-120 | signers configured with the key shares of a peer-only ceremony hold a dealing of the joint polynomial, public key shares included |
| CeremonySigning.PeerKeysAggregate | cmd/grpc-proxy/main.go:152-173 | so the aggregator accepts any threshold of them, share checks included, and the signature verifies |
| CeremonySigning.PeerKeysBegin | cmd/signer/main.go:32-76 | and they can begin the runs of the signing system, for which everything below holds |
| CeremonySigning.DrivenSharesSignIff | cmd/dkg-coordinator/main.go:94-115 | keys of the ceremony as driven sign exactly when the challenge or the committee's correction is zero |
| Gather.CollectCommitments | cmd/grpc-proxy/main.go:84-106 | the first t successes in order of arrival, each with its address, or the number of successes, as the next three rows spell out |
| Gather.SelectedFirst | cmd/grpc-proxy/main.go:95-98 | the commitments kept, with their addresses, stand at t increasing positions of the arrivals, and no other position up to the last of them holds an answer: they are the first t successes, in order |
| Gather.SelectedStays | cmd/grpc-proxy/main.go:94-98 | once there are t, later arrivals change nothing |
| Gather.SelectedCount | cmd/grpc-proxy/main.go:101-103 | there are enough exactly when at least t arrivals hold an answer; the error reports how many do |
| Gather.CollectShares | cmd/grpc-proxy/main.go:140-149 | the loop returns all shares in order of arrival, or stops at the first failure received |
| Gather.NeverStuck | cmd/grpc-proxy/main.go:64-99 | in every state of every interleaving the buffer is within its capacity, no sender is blocked, a state is final exactly when nothing can happen, and a run has at most 2n steps |
| Gather.FirstInFirstOut | cmd/grpc-proxy/main.go:64-86 | results are received in the order in which they were sent, in every interleaving |
| Gather.AnyOrder | cmd/grpc-proxy/main.go:64-99 | every order of arrival happens in some run |
| Gather.CommitmentGather | cmd/grpc-proxy/main.go:84-106 | whatever the interleaving, the gather succeeds exactly when at least t of the n answered, and otherwise reports how many did |
| Gather.SelectedPairs | cmd/grpc-proxy/main.go:95-98 | the k-th commitment kept came from the k-th active signer, and active signers are distinct |
| Gather.ShareGather | cmd/grpc-proxy/main.go:117-149 | whatever the interleaving, shares are returned exactly when every active signer answered, as a permutation of their answers; after an early return every sender still finishes |
| SigningRuns.StepKeeps | cmd/signer/main.go:32-76 | every event of the system, be it a signer handling a request of a session or of another client, an answer received, or a decision of a session, keeps the invariant |
| SigningRuns.FinishedSessionsVerify | cmd/grpc-proxy/main.go:183-199 | in every state of every run, a session that got to aggregation has a signature that satisfies the Schnorr equation for its message |
| SigningRuns.ActiveSignersCommitted | cmd/grpc-proxy/main.go:84-138 | in every state of every run, the signers asked for shares are exactly those whose commitments are in the list, each still on its signer's books |
| SigningRuns.NoncesUsedOnce | cmd/signer/main.go:32-76 | in every state of every run, handed out equals outstanding plus used, disjointly, and no commitment is used twice |
| SigningRuns.RecordsGrow | cmd/signer/main.go:36 | between any two states of a run, the recorded commitments and the used nonces only grow |
| SigningRuns.RefusedOnlyIfUsed | cmd/signer/main.go:64-69 | in every state of every run, a signer answers a session's request exactly when the session's commitment has not been used |
| SigningRuns.OthersCanCauseRefusal | cmd/signer/main.go:46-76 | in every reachable state, a /sign request of another client with a session's list is accepted, and after it the signer refuses the session |
| Isolation.NoRequestRefused | cmd/grpc-proxy/main.go:122-138 | in every run in which only sessions send /sign, however they interleave, no signer refuses a session that still waits for it |
| SessionProgress.SessionNotStuck | cmd/grpc-proxy/main.go:64-149 | in every state of every run, a pending session has a possible event of its own in which nothing is lost, and a positive bounded budget |
| SessionProgress.BudgetFalls | cmd/grpc-proxy/main.go:64-149 | every event of a pending session uses up its budget, and events of others leave the session as it is |
| SessionProgress.SessionFinishes | cmd/grpc-proxy/main.go:183-199 | every run can be continued by events of one session only, none of them a loss, until that session is over |
| SessionProgress.DeliveredSessionSigns | cmd/grpc-proxy/main.go:183-199 | in every run without foreign /sign requests in which no /sign call of a session is lost, the session never ends for want of a share, and when over it has a signature exactly when at least t signers have committed to it |
| SessionProgress.UndisturbedSessionSigns | cmd/grpc-proxy/main.go:183-199 | and if no /commit call is lost either, exactly when there are t signers |
| SessionProgress.SessionSignsIff | cmd/grpc-proxy/main.go:183-199 | in every run without foreign /sign requests, a session that is over has a signature exactly when at least t of its /commit calls got through both ways and none of its /sign calls was lost |
| SessionProgress.SigningSucceeds | cmd/grpc-proxy/main.go:183-199 | for every dealing to at least t signers and all messages there is a run in which the sessions for them are open at the same time and each ends with a signature |
| Coordinator.CollectCommitments | cmd/coordinator/main.go:78-115 | one commitment from every signer in order, or the first call that failed; the signers before it have committed, it too if only the answer got lost, and no other |
| Coordinator.CollectSignatures | cmd/coordinator/main.go:142-193 | one share from every signer in order, or the first signer that failed or refused, with the state of every signer either way |
| Coordinator.EverySignerSigns | cmd/frostlab/main.go:133-189 | after every signer has committed, each finds its commitment in the list and signs, using up that nonce only |
| Coordinator.RoundVerifies | cmd/frostlab/main.go:106-206 | an undisturbed round of at least t dealt signers aggregates to a signature that verifies |
| Coordinator.ThresholdSign | cmd/coordinator/main.go:290-349 | a signature is returned exactly when all calls get through and the commitments' texts can be read, and it satisfies the Schnorr equation for the message; the aggregation itself never fails |
| Coordinator.GenerateToken | cmd/coordinator/main.go:351-409 | a token is returned in the same case; it is header, payload and signature text, encoded and joined by dots, it parses back to them, and the signature verifies for its first two parts |
| Base64Url.EncodeRoundTrip | cmd/coordinator/main.go:70-76 | for all bytes: decoding inverts encoding, the length is that of section 5 of RFC 4648 without padding, and no character is a dot |
| Base64Bits.EncodeBits | cmd/coordinator/main.go:70-76 | character i of an encoding is the letter of table 2 of RFC 4648 for bits 6i to 6i + 5, filled up with zeros |
| P1363.PadLeft | internal/signing/ecdsa.go:78-85 | longer input is unchanged; shorter input becomes the last bytes of a result of the full size that starts with zeros |
| P1363.EncodeSignature | internal/signing/ecdsa.go:69-75 | the text of the two padded integers, first R and then S |
| P1363.SignatureRoundTrip | internal/signing/ecdsa.go:69-74 | for all r, s below 2^256 the bytes are 64 and split back into r and s |
| P1363.SignatureDigits | internal/signing/ecdsa.go:69-74 | the 64 bytes one by one: the base-256 digits of R and then those of S, each from the most significant on |
| P1363.SignatureInjective | internal/signing/ecdsa.go:69-74 | different signatures have different bytes |
| P1363.SignatureText | internal/signing/ecdsa.go:74-75 | the text has 86 characters and decodes to the bytes |
| Token.TokenRoundTrip | cmd/coordinator/main.go:357-408 | for every header, payload and signature the token has two dots and parses back to the three |
| Proxy.SignToken | cmd/grpc-proxy/main.go:175-211 | the first t signers to commit are asked to sign header "." claims with their commitments; the header and the ECDSA text, or the error of the first of the four steps that fails |
| Proxy.AnswerTooFew | cmd/grpc-proxy/main.go:183-186 | the error of too few commitments, with their number, exactly when fewer than t calls were answered |
| Proxy.AnswerShareFailed | cmd/grpc-proxy/main.go:189-192 | else that of the first /sign call received that failed |
| Proxy.AnswerMalformed | cmd/grpc-proxy/main.go:196-199 | else that of a text that cannot be read |
| Proxy.AnswerAggregated | cmd/grpc-proxy/main.go:196-210 | else that of the aggregation, else that of the ECDSA key, else the header and the padded R and S of the ECDSA signature of header "." claims |
| Proxy.AnswerBacked | cmd/grpc-proxy/main.go:182-209 | for any claims, header "." claims is the text that the signers were asked to sign, that the verified FROST signature over the commitments of at least t of them is for, and that the returned ECDSA signature was made of |
| Proxy.TokenBacked | cmd/grpc-proxy/main.go:176-209 | for encoded claims the token parses back to header, payload and the ECDSA signature of its own first two parts |
| ProxyRuns.OutcomeIff | cmd/grpc-proxy/main.go:183-199 | in every run, a session that is over has a signature exactly when at least t signers committed and all active ones, each once, answered; otherwise it reports the number of successes or a failed address |
| ProxyRuns.TokenIff | cmd/grpc-proxy/main.go:175-211 | in every run, for what a finished session received, as texts: the function returns a token exactly when at least t signers committed, all active ones signed, the texts of their commitments can be read and the ECDSA key signs |

## Left out

- HTTP, mTLS, gRPC, nginx, Vault, files and JSON: plumbing; messages are values, or texts where their encoding matters.
- Curve arithmetic, SHA-512, ECDSA, random generation and the AES-GCM keystore: foreign cryptography, here parameters.
- The FROST and secret-sharing libraries: not part of this model; their contract is under Assumptions. `commitments.Sort` is modelled on values, and `SortAgrees` shows that the algorithm does not matter.
- `froststate/bootstrap.go` and `coordinatorstate/bootstrap.go`: loading configuration.
- `froststate.SignerPool`, `internal/coordinator`, `internal/signer` and `internal/types`: used by no handler, and they would only add easy members.
- Real time: progress is a bound on steps, not on latency.
- The global `dkgCommitment` (`cmd/signer/main.go`) is written and never read.
- The decimal text in the path of `/dkg/round2/`: the handler takes an integer and checks its range. Malformed JSON bodies are left out as well; a null in a list of pointers is not malformed and is modelled.
- Dkg.Participant.Round2: the polynomial must have a coefficient; evaluating an empty one, which a threshold of 0 would give, panics in the source.
- DkgCeremony.CollectShares: at most 65535 signers, as target identifiers are 16 bits wide; more would wrap.
- Errors of `MarshalBinary` (`internal/dkg/dkg.go:55-58`, `74-77`): encoding does not fail here.
- DkgCeremony.RunCeremony: a call that does not get through ends the ceremony, and what the signers have done until then is not stated.
- DkgCeremony.DkgSigner.Finalize: returns the share that the handler computes, in place of the status it answers; the prefix it logs is not modelled.
- CeremonyRuns.RunInv: a ceremony that a lost call ends is a run that stops there. Other clients' calls of `/dkg/round2` and `/dkg/finalize` change nothing and are no steps.
- SigningRuns.FinishedSessionsVerify: sessions exchange commitments and shares by value, and the addresses of signers are their identifiers; a text that is rejected is a failed call.

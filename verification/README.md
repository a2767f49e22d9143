# Verification of the GUI_ipk protocols, transformations and codecs

This project models the parts of the repository whose correctness is hard to see from the code, and
proves what their documentation and tests promise. `dafny verify dfyconfig.toml` checks all of it.

| files | component |
|---|---|
| `Bytes`, `CbcSpec`, `CbcFrame`, `CbcEngine`, `CbcRuns`, `CbcHandOver`, `CbcKeyRace` | the chunked asynchronous CBC provider over the SPU hardware |
| `HybridSpec`, `Patches`, `HybridAead` | the ESP packet wrapper with its borrowed (zero-copy) and copied paths |
| `ProviderModel`, `ProviderResolver`, `ProviderLaws` | capability groups and exact-version dependencies of kernel module packages |
| `PackageNames`, `RepairModel`, `RepairMerge`, `RepairLaws`, `RepairFeed` | merging repaired packages into an assembled feed |
| `RemoteRelease`, `ComponentPublisher`, `ReleasePublisher` | two resumable publishers of immutable releases |
| `ShardSelect`, `ShardCoverage`, `ShardMerge`, `ShardMergeLaws`, `ShardFeed` | dealing recipes out to shards and merging what they built |
| `TextLines`, `KernelConfig`, `KernelExports`, `KernelTables`, `KernelExample`, `PackageIndex` | kernel configurations, export tables, OPKG indexes |
| `Wrappers`, `Ordering` | an option type and digests; string order, sorted lists and stable sorting |

## How it is modelled

**CBC.** The transform context, its jobs and the callers' requests are classes over byte arrays, so a
request whose source and destination are one array is really one array. The block cipher is any
invertible function per key. The hardware is a contract: it accepts a frame only with a correct hash,
and in mode 2 only with a trailer it recognises, and then ciphers the payload with the key loaded into
its own transform. Each chunk's memory, hash and hardware outcome is arbitrary; completions come as
separate events in any order with submissions and rekeyings. Ghost fields account for every job, frame
and answer. There methods are atomic; `CbcHandOver` takes the submission and its callbacks apart step by
step and shows that whoever touches a job holds it.

**Packet wrapper.** Caller memory is arrays with segments into them, so a borrowed packet aliases
header, initial value and payload exactly as in the code. Hash results, allocation failures and
hardware results are arbitrary parameters; the SHA functions are arbitrary functions of the content.

**Resolver.** A profile holds its builtin modules, its verified module packages with the dependencies
they came with, and the firmware's own packages. Four assumptions are explicit predicates: no module
package is named like a capability package (`NamesApart`), capability packages of different groups have
different names (`Distinct`), no module package name occurs twice over all profiles (`UniquePackages`;
the caller checks that, scripts/publication_layout.py:147-154), and packages come in depending on
nothing but the kernel and providing nothing (`KernelOnly`; what they came with is kept at
scripts/kernel_opkg_providers.py:311, and only the laws about satisfied dependencies need this).

**Feeds and releases.** The feed tree and the remote release are objects holding maps. Digests are
injective. A request to the hosting service may be done, refused, or done with its reply lost, and a
batch upload may store any part before it fails; other runs of the same publication may act between any
listing and upload. A run that meets the end of its script dies there, so every intermediate state is
the final state of some run.

**Codecs.** Configurations and indexes are modelled on their characters, with the line-break and white
space characters of the language they are written in; the kernel image on its bytes.

**Definitions.** What a method and its contract both take from one definition, a law states once more in
plain terms, byte by byte or line by line: `DecBytes`, `AnswerBytes`, `FrameBytes`, `HybridEnc`, `HybridDec`,
`PlanSays`, `ModulePackage`, `CapabilityPackage`, the laws of `RepairFeed`, `ShardFeed` and `KernelTables`,
`ValidIff`, `LineSays`, `StanzaIsGood`, `KeepIs`, `LeIff`.

## Where a promise does not hold as stated

Each is proved with a concrete case and an exact condition.

- The CBC provider tests `keyed` before it takes the busy flag. A rekeying that fails in between, even
  several requests earlier, lets requests start under different keys (`SplitTestsCanFail`). A request
  sees one key exactly if the last rekeyings that loaded each of the three transforms agree
  (`SharedIff`, `SharedIffFresh`); reading `keyed` again under the flag, or both tests in one step,
  suffices (`KeyedIsShared`, `AtomicTestsAreSafe`), and is more than is needed
  (`EarlyFailureIsHarmless`).
- Package file names are injective only for versions without an underscore (`FileNamesCollide`). With
  one, an accepted repair can overwrite the file of another package (`UnderscoreOverwrites`; exactly
  when not: `RetainedFileKeptIff`, `RetainedFileKeptIffOwn`), and two accepted repairs can have one
  destination (`SharedDestination`; exactly when that matters: `OneStanzaEach`). The same goes for the
  files of a shard merge (`FeedHolds`).
- After validation a repair merge can still fail half way: when a repaired package has two stanzas in
  a section that is not its destination, the second unlink misses (`DuplicateBreaks`,
  `CompletesWithoutDuplicates`, and `MergeCompletesIff` for repairs that share file names).
- The shard merge checks recipe coverage only when there are exactly as many manifests as expected; one
  with an index beyond the count switches the check off (`ExtraShardPasses`, `CoverageCheckedIff`).
- The search for anchor strings skips an occurrence that shares its zero byte with the one before
  (`SecondNotFound`, `AllFoundIff`). The base that is found need not be the only consistent one
  (`OtherBaseIsConsistent`, `BaseIsConsistent`).
- A prepared configuration without any option cannot be read back (`NothingLeft`, `Prepare`).

## Model

| member | source | states |
|---|---|---|
| CbcSpec.CbcEncEquation | experiments/spu-cbc/spu_cbc_lab.c:91-111 | The reference encryption satisfies the chaining equations of section 6.2 of NIST SP 800-38A at every block. |
| CbcSpec.CbcDecEquation | experiments/spu-cbc/spu_cbc_lab.c:102-109 | So does the reference decryption: deciphered block xor the previous ciphertext block. |
| CbcSpec.DecBytes | experiments/spu-cbc/spu_cbc_lab.c:102-109 | Byte by byte: a plaintext byte is the byte of the deciphered block xor the byte 16 places before in the ciphertext, or of the initial value in the first block. |
| CbcSpec.EncBytes | experiments/spu-cbc/spu_cbc_lab.c:158-161 | Byte by byte: a ciphertext block is the enciphered plaintext block xor the ciphertext block before it, or the initial value. |
| CbcSpec.DecryptInvertsEncrypt | experiments/spu-cbc/spu_cbc_lab.c:231-232 | For every key, initial value and whole-block message, decrypting an encryption gives the message, under any invertible block cipher. |
| CbcSpec.EncryptInvertsDecrypt | experiments/spu-cbc/spu_cbc_lab.c:231-232 | And the other way round, so both directions are bijections. |
| CbcSpec.ChunkLaw | experiments/spu-cbc/spu_cbc_lab.c:138-166 | Any block-aligned piece of the result is what the piece alone gives when started from the chaining value at its offset, and the next chaining value is the last ciphertext block of the piece. |
| CbcSpec.RequestsCompose | experiments/spu-cbc/spu_cbc_lab.c:218-225 | A message cut at any block boundary into two requests gives the same bytes as one request. |
| CbcFrame.FrameAccepted | experiments/spu-cbc/spu_cbc_lab.c:146-182 | The frame that software builds is accepted by hardware that holds the same key, in both modes and both directions. |
| CbcFrame.FrameBytes | experiments/spu-cbc/spu_cbc_lab.c:143-182 | The frame byte by byte: header, chaining value in mode 4, payload (in mode-2 encryption xor the chaining value), trailer plain or enciphered, and the hash over all before it. |
| CbcFrame.TrailerBindsKey | experiments/spu-cbc/spu_cbc_lab.c:162-172 | In mode 2 the enciphered trailer is accepted exactly if the key of the padding cipher and the transform encipher the trailer alike. |
| CbcFrame.FrameResult | experiments/spu-cbc/spu_cbc_lab.c:146-188 | What the hardware makes of such a frame is the chunk's part of the CBC result, or for mode-2 decryption its independently deciphered blocks. |
| CbcEngine.CbcContext.NextChunkFits | experiments/spu-cbc/spu_cbc_lab.c:140-142 | The next chunk is a positive multiple of 16 bytes within the request. |
| CbcEngine.CbcContext.SubmitChunk | experiments/spu-cbc/spu_cbc_lab.c:132-192 | Frees the old frame, builds the new one and hands it over, with the exact code for the chunk's memory, hash and hardware: if pending, the hardware holds exactly the frame for the next chunk; if done, its payload is that chunk's part of the result; nothing else of the request changes. |
| CbcEngine.CbcContext.FillNative | experiments/spu-cbc/spu_cbc_lab.c:151-157 | Mode 4: the frame carries the chaining value, and the last ciphertext block is saved before decryption overwrites it; it fails exactly with the hash. |
| CbcEngine.CbcContext.FillBlock | experiments/spu-cbc/spu_cbc_lab.c:158-166 | Mode 2 encryption: the frame carries the block xor the chaining value, byte by byte as `FrameBytes` says, and the plain trailer. |
| CbcEngine.CbcContext.FillBlocks | experiments/spu-cbc/spu_cbc_lab.c:162-173 | Mode 2 decryption: the frame carries the ciphertext and the trailer enciphered under the padding cipher's key; it fails exactly with the hash. |
| CbcEngine.CbcContext.Dispatch | experiments/spu-cbc/spu_cbc_lab.c:184-191 | The code is the hardware's, with busy reported as ENOBUFS: pending leaves the frame with the hardware, success leaves the processed frame. |
| CbcEngine.CbcContext.ConsumeChunk | experiments/spu-cbc/spu_cbc_lab.c:83-113 | A finished chunk extends the correct prefix of the destination by exactly that chunk and moves the chaining value along; a failed one changes nothing. |
| CbcEngine.CbcContext.Unchain | experiments/spu-cbc/spu_cbc_lab.c:102-109 | Mode 2 decryption block by block gives the CBC plaintext even when source and destination are the same memory. |
| CbcEngine.CbcContext.UnchainBlock | experiments/spu-cbc/spu_cbc_lab.c:103-108 | The ciphertext block is read before the plaintext block overwrites it. |
| CbcEngine.CbcContext.Continue | experiments/spu-cbc/spu_cbc_lab.c:122-128 | The loop shared by submission and callback: its code, the bytes done and the number of chunks submitted are those of the specified course, in which the first chunk that does not succeed at once decides; progress is strict. |
| CbcEngine.CbcContext.Release | experiments/spu-cbc/spu_cbc_lab.c:70-81 | The only end of a job: its frame and the job die once, the context becomes free, and the single answer recorded for the request is true. |
| CbcEngine.CbcContext.CbcSubmit | experiments/spu-cbc/spu_cbc_lab.c:194-230 | A request is accepted exactly when it is whole, non-empty, keyed, alone and there is memory, with the exact error otherwise and nothing changed; an accepted one takes the specified course and is answered now, with that code and chained bytes, or left pending, never both. |
| CbcEngine.CbcContext.InnerDone | experiments/spu-cbc/spu_cbc_lab.c:115-130 | A completion takes the job along the specified course: back to the hardware further on, or its request is answered by callback with that code; EINPROGRESS is only a notice. |
| CbcEngine.CbcContext.SetKey | experiments/spu-cbc/spu_cbc_lab.c:234-262 | Refused without change on a bad length or while a request is open; otherwise keyed afterwards exactly if all three transforms took the key. |
| CbcRuns.Perform | experiments/spu-cbc/spu_cbc_lab.c:115-262 | One event of a run: a submission that is accepted, exactly under the listed conditions, gets the next number and is open, or answered with the code of its course, for its own work and destination; a completion takes the open request on likewise; rekeying decides the key, and never under an open request; whatever is refused changes nothing. |
| CbcRuns.Drive | experiments/spu-cbc/spu_cbc_lab.c:70-262 | Over every run, event by event as `Perform` says, each accepted request is open or has exactly one true answer, which came by callback exactly if EINPROGRESS had been returned; an idle context owns no job or frame; the open request has one key in all three transforms. |
| CbcRuns.AcceptedIsAnswered | experiments/spu-cbc/spu_cbc_lab.c:194-230 | A request accepted at any step of a run gets the next number and is, when the run ends, open or answered for exactly the work and destination it was submitted with. |
| CbcRuns.OnlyAcceptedCount | experiments/spu-cbc/spu_cbc_lab.c:194-230 | At every step of a run a number is given exactly to an accepted submission, only rekeying changes whether there is a key, and rekeying under an open request changes nothing. |
| CbcRuns.AnswerSays | experiments/spu-cbc/spu_cbc_lab.c:115-228 | In every run a request is answered with Success if and only if every one of its chunks went well, at once or by completion, and then those chunks cover it; otherwise with the code of the first chunk that failed, which is the last that was submitted. |
| CbcRuns.CoveredIs | experiments/spu-cbc/spu_cbc_lab.c:140-141 | The first m chunks of a request cover 16 m bytes in mode-2 encryption and else 16000 m, as far as it goes. |
| CbcRuns.AnswerBytes | experiments/spu-cbc/spu_cbc_lab.c:83-113 | Every answer of a run chains, byte by byte: a decrypted byte is that of the deciphered input block xor the input byte 16 places before or that of the initial value; an encrypted block deciphers to input xor the output block before it. |
| CbcRuns.AnswerRest | experiments/spu-cbc/spu_cbc_lab.c:83-113 | An answer covers whole blocks, all of them exactly if its code is Success; what is not covered is untouched; the initial value left behind is the last ciphertext block on Success and else the one that came. |
| CbcRuns.SmoothSuccess | experiments/spu-cbc/spu_cbc_lab.c:194-230 | Where memory, hash and hardware never fail and the hardware works at once, an accepted request is answered in its own submission with Success for all its bytes. |
| CbcRuns.Settle | experiments/spu-cbc/spu_cbc_lab.c:115-130 | If the hardware keeps completing chunks, every accepted request ends with an answer. |
| CbcRuns.AnswersAgree | experiments/spu-cbc/spu_cbc_lab.c:83-230 | Two successful answers to the same work agree on every byte, whatever the mode, chunk boundaries, completion order and sharing of buffers. |
| CbcRuns.RoundTrip | experiments/spu-cbc/spu_cbc_lab.c:83-230 | A successful decryption of a successful encryption, each in either mode and in place or not, restores the input and leaves the same initial value. |
| CbcRuns.InfoChains | experiments/spu-cbc/spu_cbc_lab.c:218-225 | The initial value left behind lets a following request continue as if both were one. |
| CbcHandOver.OnlyHolderTouches | experiments/spu-cbc/spu_cbc_lab.c:115-130 | Step by step, with callbacks that may run before the submission returns: whoever touches a job holds it; no thread while the hardware has it, one at a time, nobody after it was freed. |
| CbcHandOver.AnsweredOnce | experiments/spu-cbc/spu_cbc_lab.c:70-81 | A job is freed at most once, and nothing brings it back. |
| CbcHandOver.NothingLeaks | experiments/spu-cbc/spu_cbc_lab.c:194-230 | When every thread has returned and the hardware does not have the job, it was answered and freed. |
| CbcHandOver.ByCallbackIff | experiments/spu-cbc/spu_cbc_lab.c:218-228 | A request is answered by callback exactly if its submission says EINPROGRESS. |
| CbcHandOver.CallbackCanBeFaster | experiments/spu-cbc/spu_cbc_lab.c:219-221 | A run in which the job is already freed while the submission still looks at its EINPROGRESS, so that look must not need the job. |
| CbcKeyRace.KeyedIff | experiments/spu-cbc/spu_cbc_lab.c:240-262 | In any run of any number of submitters and rekeyings, `keyed` holds exactly if no rekeying is under way and the last one loaded all three transforms. |
| CbcKeyRace.KeyedIsShared | experiments/spu-cbc/spu_cbc_lab.c:202-207 | `keyed` read again under the busy flag would be enough: then all three transforms have the key last published. |
| CbcKeyRace.KeysStayWhileOwned | experiments/spu-cbc/spu_cbc_lab.c:240-245 | While a request is open no step changes a key, and only its end takes the flag from it. |
| CbcKeyRace.SharedIff | experiments/spu-cbc/spu_cbc_lab.c:202-207 | In any run an open request sees one key in all three transforms exactly if the last rekeying that loaded the first, the last that also loaded the second and the last that loaded all three brought the same key. |
| CbcKeyRace.SharedIffFresh | experiments/spu-cbc/spu_cbc_lab.c:202-207 | When no key is used twice: exactly if the last rekeying that loaded anything loaded all three. |
| CbcKeyRace.AtomicTestsAreSafe | experiments/spu-cbc/spu_cbc_lab.c:202-207 | With the keyed test and the busy flag taken in one step, every open request of any run sees the one published key. |
| CbcKeyRace.EarlyFailureIsHarmless | experiments/spu-cbc/spu_cbc_lab.c:240-262 | A run in which a rekeying fails before it loads anything: the request starts without `keyed`, and still under one key. |
| CbcKeyRace.SplitTestsCanFail | experiments/spu-cbc/spu_cbc_lab.c:202-207 | A run in which two submitters that passed the separate tests are served one after the other with two different keys loaded. |
| HybridSpec.SealBytes | experiments/spu-sha256/spu_sha256_hybrid.c:71-83 | A sealed packet is the CBC ciphertext followed by bytes 0 to 15 of the SHA-256 digest of header, initial value and ciphertext. |
| HybridSpec.OpenBytes | experiments/spu-sha256/spu_sha256_hybrid.c:169-186 | A packet opens exactly if its last 16 bytes are bytes 0 to 15 of that digest, one by one. |
| HybridSpec.OpenSeal | experiments/spu-sha256/spu_sha256_hybrid.c:67-100 | Opening what was sealed returns the plaintext (encrypt-then-MAC with a 128-bit tag, section 2.3 of RFC 4868). |
| HybridSpec.SealOpen | experiments/spu-sha256/spu_sha256_hybrid.c:169-186 | Whatever opens is the sealing of its plaintext: no other packet is accepted. |
| HybridAead.SealedInPlace | experiments/spu-sha256/spu_sha256_hybrid.c:71-82 | Hardware result, long tag and initial value written into a borrowed packet amount to the two writes of the copying path. |
| HybridAead.PacketRoundTrip | experiments/spu-sha256/spu_sha256_hybrid.c:67-100 | What one request sealed, borrowed or copied, another finds in its own fields: the initial value where it was put, a packet that opens to the payload, and an engine decryption that gives it. |
| HybridAead.PacketRoundTripInPlace | experiments/spu-sha256/spu_sha256_hybrid.c:67-100 | Sealing and opening over the payload itself restores the packet's memory but for the initial value and the tag. |
| HybridAead.SealForOpening | experiments/spu-sha256/spu_sha256_hybrid.c:114-210 | After a submission that sealed successfully, a matching request opens to what was sealed, whatever memory each of its parts lies in. |
| HybridAead.SealThenOpen | experiments/spu-sha256/spu_sha256_hybrid.c:114-210 | Two submissions: the second gives the code of an authentic packet, and if both succeed the payload is back. |
| HybridAead.Hybrid.FinishSealed | experiments/spu-sha256/spu_sha256_hybrid.c:71-83 | Sealing finishes with exactly one of: the hash's failure, EBADMSG for a wrong short tag (not looked at under private framing), or the sealed packet delivered; on failure nothing is delivered. |
| HybridAead.Hybrid.Release | experiments/spu-sha256/spu_sha256_hybrid.c:90-99 | Every finished job dies once: a borrowed packet gets its length back, an own copy is freed. |
| HybridAead.Hybrid.Complete | experiments/spu-sha256/spu_sha256_hybrid.c:67-100 | From the hardware's verdict to the end of the job: the exact code, what a success leaves in the caller's memory, and which bytes a failure may have touched. |
| HybridAead.Hybrid.HybridDone | experiments/spu-sha256/spu_sha256_hybrid.c:102-112 | The completion callback finishes a pending job with the same code and effect, and leaves every other job that is pending in other memory pending; EINPROGRESS is only a notice. |
| HybridAead.Hybrid.MakeCopy | experiments/spu-sha256/spu_sha256_hybrid.c:151-163 | The private copy holds the caller's header and payload in memory of its own. |
| HybridAead.Hybrid.Verify | experiments/spu-sha256/spu_sha256_hybrid.c:169-186 | Before decryption the full tag is compared: the exact code, success exactly for an authentic packet whose hashes were computed; counts bad tags and leaves a borrowed packet as it is. |
| HybridAead.Hybrid.Prepare | experiments/spu-sha256/spu_sha256_hybrid.c:131-168 | The packet is borrowed exactly under the listed conditions, else copied; either way the job works on the caller's header, initial value and input. |
| HybridAead.Hybrid.Proceed | experiments/spu-sha256/spu_sha256_hybrid.c:169-209 | The exact code of a prepared job; the hardware is reached only with a matching tag; length, jobs and packets are accounted for on every path. |
| HybridAead.Hybrid.HybridSubmit | experiments/spu-sha256/spu_sha256_hybrid.c:114-210 | The code is one function of the surroundings and the packet, and success one effect on the caller's memory, whether borrowed or copied; success means what the specification seals or opens; a wrong tag never reaches the hardware and leaves everything as it came; nothing leaks, and pending jobs in other memory stay pending. |
| HybridAead.Hybrid.HybridEnc | experiments/spu-sha256/spu_sha256_hybrid.c:211-214 | Sealing in full: the code from the request's sizes, the memory, the hardware and the hash; after Success the destination has the CBC ciphertext and behind it bytes 0 to 15 of the digest of header, initial value and ciphertext, and the request the initial value; while pending the hardware has header and payload. |
| HybridAead.Hybrid.HybridDec | experiments/spu-sha256/spu_sha256_hybrid.c:215-218 | Opening in full: EBADMSG exactly if the 16 bytes behind the ciphertext are not bytes 0 to 15 of the digest of header, initial value and ciphertext, unless an earlier step fails; after Success the destination has the CBC plaintext and is otherwise as it was; while pending the hardware has the whole frame. |
| HybridAead.RestBytes | experiments/spu-sha256/spu_sha256_hybrid.c:67-100 | A delivered packet leaves every byte outside its output and its initial value as it was. |
| ProviderResolver.SplitDepends | scripts/kernel_opkg_providers.py:215-224 | The dependencies of a group in order, and whether any part is of an unknown kind. |
| ProviderResolver.Select | scripts/kernel_opkg_providers.py:207-229 | Every group is either selected, exactly if all its modules are there and its dependencies are readable, or skipped. |
| ProviderResolver.Prune | scripts/kernel_opkg_providers.py:230-238 | Whatever order groups are looked at, the loop ends with the greatest set of candidates whose dependencies lie in the set or in the firmware; the rest is skipped. |
| ProviderResolver.GreatestUnique | scripts/kernel_opkg_providers.py:230-238 | There is only one such greatest set. |
| ProviderResolver.MakePlan | scripts/kernel_opkg_providers.py:199-246 | The plan for a profile, group by group: the groups are the common ones and those of the firmware that have modules and are not ours, each in exactly one of selected and skipped; a selected one has the firmware's modules and dependencies where it is of that kind, and else those of the common definition. |
| ProviderResolver.PlanSays | scripts/kernel_opkg_providers.py:226-243 | Every selected group has modules, all builtin or in a package, and dependencies that are selected or in the firmware; it has a direct provider exactly if its one module has a package, and the name the code gives it. |
| ProviderResolver.PlanIsLargest | scripts/kernel_opkg_providers.py:226-238 | And no set of groups with these properties holds one that is not selected. |
| ProviderResolver.PlanIsSound | scripts/kernel_opkg_providers.py:230-243 | In such a plan every lookup that dependency emission makes has an answer. |
| ProviderResolver.CollectVersions | scripts/kernel_opkg_providers.py:248-272 | The upgraded version of every module package over all profiles, computed together. |
| ProviderResolver.EmitModuleDeps | scripts/kernel_opkg_providers.py:279-297 | The module-level dependencies of one package are exactly those specified, failing exactly if some needed module is nowhere. |
| ProviderResolver.EmitCapabilityDeps | scripts/kernel_opkg_providers.py:298-310 | The group-level dependencies of one package are exactly those of the groups it directly provides, itself left out. |
| ProviderResolver.EmitFeed | scripts/kernel_opkg_providers.py:274-354 | What is emitted for a profile is exactly what is to be published, with the dependencies a package came with kept; it fails exactly if some module needs another that nobody has; and if packages came in depending on the kernel only, each dependency can be satisfied exactly. |
| ProviderLaws.NamedGroupIsPublished | scripts/kernel_opkg_providers.py:299-310 | The name and version others require for a selected group belong to a published package standing for that group. |
| ProviderLaws.DependenciesResolve | scripts/kernel_opkg_providers.py:274-354 | Every emitted dependency, those a package came with included, names a record of the same feed with that version, a firmware package with its recorded version, or the kernel. |
| ProviderLaws.RepresentedGroupHolds | scripts/kernel_opkg_providers.py:239-243 | In an installation closed under the emitted dependencies, a package standing for a group comes with all modules of the group and with a package for each group it depends on. |
| ProviderLaws.CapabilitiesAreTrue | scripts/kernel_opkg_providers.py:322-340 | And with every module of every selected group reachable through group dependencies, along chains of any length. |
| ProviderLaws.ModuleNeedsAreMet | scripts/kernel_opkg_providers.py:281-297 | Whatever an installed module needs is builtin, installed, or owned by a firmware package required with its recorded version. |
| ProviderLaws.ModulePackage | scripts/kernel_opkg_providers.py:279-321 | What is published for a module: its package with the upgraded version, the capabilities it came with and those it stands for, and the dependencies it came with, one for every need outside it, and those of the groups it stands for, each with its exact version; no others. |
| ProviderLaws.CapabilityPackage | scripts/kernel_opkg_providers.py:322-345 | What is published for a group without a module package of its own: name and version by whether the firmware has the group, and exact dependencies on the kernel, its module packages and the groups it depends on; no others. |
| ProviderLaws.NothingElse | scripts/kernel_opkg_providers.py:274-354 | Nothing else is published. |
| PackageNames.FileNamesInjective | scripts/merge-userspace-repairs.py:27-31 | File names determine package, version and architecture when versions have no underscore. |
| PackageNames.FileNamesCollide | scripts/merge-userspace-repairs.py:27-31 | With an underscore in the version two different packages share a file name. |
| Ordering.LeIff | scripts/merge-userspace-repairs.py:118 | The order of names that all sorting uses: one is a beginning of the other, or has the smaller character at the first difference. |
| RepairMerge.ReadBaseline | scripts/merge-userspace-repairs.py:66-79 | Accepts exactly a baseline whose stanzas all name their own existing file and that is not empty. |
| RepairMerge.Collect | scripts/merge-userspace-repairs.py:84-109 | Accepts exactly sound repair files without conflicting builds; of several for one package the last counts. |
| RepairMerge.VersionsKept | scripts/merge-userspace-repairs.py:110-115 | Accepts exactly repairs that change no version or architecture of an existing stanza. |
| RepairMerge.RemoveOld | scripts/merge-userspace-repairs.py:122-131 | Removes a package's stanzas from one section and the file they name, failing exactly if a file to unlink is not there or is asked for twice. |
| RepairMerge.ReplaceOne | scripts/merge-userspace-repairs.py:118-135 | One repair put in: exact new indexes and files, and the exact condition under which no unlink misses. |
| RepairMerge.Merge | scripts/merge-userspace-repairs.py:64-151 | Refused exactly if validation rejects, and then nothing has changed; otherwise it completes exactly if every unlink finds its file, with the specified files and indexes. |
| RepairLaws.MergeCompletesIff | scripts/merge-userspace-repairs.py:116-135 | After validation no unlink misses if and only if a repaired package has at most one stanza in each section that is not its destination, and no earlier repair has removed that stanza's file without another putting one there. |
| RepairLaws.CompletesWithoutDuplicates | scripts/merge-userspace-repairs.py:116-135 | With file names of their own: if and only if no repaired package has two stanzas in such a section. |
| RepairLaws.FilesAt | scripts/merge-userspace-repairs.py:118-135 | What the whole loop does to any one path is decided by the last repair that goes there or removes the file there; a path that none touches is as before. |
| RepairLaws.OneStanzaEach | scripts/merge-userspace-repairs.py:132-151 | Each repaired package has exactly one stanza over all six sections, in its own section with the repair's size and digest; its file is the repair exactly if the last repair that touches the path puts the same bytes there, so always when repairs have file names of their own. |
| RepairFeed.AcceptableIff | scripts/merge-userspace-repairs.py:64-115 | What validation accepts, in terms of feed and repairs: some stanza; every stanza well named with its file there; some repair, all well named; and no two repairs, nor stanza and repair, of one package with different version or architecture. |
| RepairFeed.EntryIff | scripts/merge-userspace-repairs.py:66-79 | A stanza is well named exactly if package, version and architecture are not empty and have no slash, backslash, line break or zero, the file name is made of them, and that file is there. |
| RepairFeed.RepairIff | scripts/merge-userspace-repairs.py:84-104 | So is a repair, if it is also a regular file in one of the six sections for one of two architectures and neither a kernel package nor reserved. |
| RepairFeed.StanzaSays | scripts/merge-userspace-repairs.py:132-148 | In the merged feed the last repair of a package has a stanza in its section with its package, version, architecture, control text and file name, the length of its content and the SHA-256 digest of its content; where repairs have file names of their own, those are the length and digest of the file there. |
| RepairFeed.StanzaAlone | scripts/merge-userspace-repairs.py:122-148 | It is the only stanza of that package in any section. |
| RepairFeed.WrittenSays | scripts/merge-userspace-repairs.py:136-148 | Indexes are written for the sections that had one or get a repair, in order of package names; others stay as they are. |
| RepairFeed.FilesSay | scripts/merge-userspace-repairs.py:118-135 | Of the last repairs that go to a path or whose package had a stanza naming it, the one with the greatest package name decides: the path has its content, or is gone if it goes elsewhere. |
| RepairFeed.FilesStay | scripts/merge-userspace-repairs.py:118-135 | A path that none of them reaches is as before. |
| RepairLaws.OtherStanzasKept | scripts/merge-userspace-repairs.py:122-148 | Every stanza of another package is kept as often as it was there, none is added, and the section is in order of package names. |
| RepairLaws.OtherFilesKept | scripts/merge-userspace-repairs.py:118-135 | A path that no repair goes to or removes keeps its bytes; of the others exactly those exist to which the last such repair goes. |
| RepairLaws.StaleFilesGone | scripts/merge-userspace-repairs.py:122-131 | When repairs have file names of their own, the file a repaired package's stanza named is gone from every section but its destination. |
| RepairLaws.RetainedFileKeptIff | scripts/merge-userspace-repairs.py:118-135 | The file of a package that is not repaired stays as it is exactly if no repair touches the path, or the last one that does puts the same bytes there. |
| RepairLaws.RetainedFileKeptIffOwn | scripts/merge-userspace-repairs.py:118-135 | When repairs have file names of their own: exactly if every repair with that file name either goes to the same section with the same bytes, or goes elsewhere and its package has no stanza in this section. |
| RepairLaws.RetainedFilesKept | scripts/merge-userspace-repairs.py:118-135 | So every such file is still there, unchanged, when no repair shares a file name with it. |
| RepairLaws.MergedFeedIsSound | scripts/merge-userspace-repairs.py:66-79 | The merged feed passes the baseline check again if and only if no file of a retained package or of a repair is removed by a repair without a later one going there; so always where file names do not clash. |
| RepairLaws.UnderscoreFreeIsApart | scripts/merge-userspace-repairs.py:27-31 | File names cannot clash where no version has an underscore and only the two known architectures occur. |
| RepairLaws.UnderscoreOverwrites | scripts/merge-userspace-repairs.py:118-135 | A feed and a repair, both accepted, where an underscore makes the repair overwrite the file of another package whose stanza stays. |
| RepairLaws.SharedDestination | scripts/merge-userspace-repairs.py:84-135 | Two accepted repairs of different packages with one destination: the merge completes, both have a stanza, and the file is the second's. |
| RepairLaws.DuplicateBreaks | scripts/merge-userspace-repairs.py:122-131 | A feed with two stanzas of one package in a section and an accepted repair for another section: the second unlink misses. |
| ComponentPublisher.PinnedIsSame | scripts/publish-components.py:53-57 | Assets pass the check exactly if each is a prepared file, byte for byte. |
| ComponentPublisher.CallsIs | scripts/publish-components.py:58-63 | The calls needed are the fewest batches of twenty that hold the missing files. |
| ComponentPublisher.CheckDirectory | scripts/publish-components.py:37-43 | Accepts exactly a directory that is as the manifest pins it. |
| ComponentPublisher.NextBatch | scripts/publish-components.py:58-63 | The batch is the first twenty missing names in order, or all that are left. |
| ComponentPublisher.UploadRound | scripts/publish-components.py:51-77 | A round, however it ends and whatever other runs do meanwhile, replaces nothing, stores only prepared files, and a successful upload saves one call. |
| ComponentPublisher.Fill | scripts/publish-components.py:51-77 | The upload loop: each refusal exactly when its check fails and then without change; it gives up exactly at an upload refused for good, dies only in an upload or with its time used up, goes on after every other one, and completes only with every file there; without failures exactly the calls that are needed. |
| ComponentPublisher.Publish | scripts/publish-components.py:36-80 | A run on a release in any state: no asset is replaced or removed, public is final and turned on only when complete, exact refusals, failure only where the service or the process makes it, and ceil(missing/20) upload calls if nothing fails. |
| ComponentPublisher.Reruns | scripts/publish-components.py:36-80 | Any sequence of runs with crashes, lost replies, partial batches and other runs in between replaces and removes nothing, keeps the release sound, is never refused, needs no more successful uploads in all than the files demand, and one undisturbed run suffices. |
| ReleasePublisher.ProvenancePins | scripts/publish-release-feed.py:41-53 | Two valid snapshots with the same provenance have the same packages and indexes, byte for byte. |
| ReleasePublisher.Validate | scripts/publish-release-feed.py:19-53 | Accepts exactly a snapshot whose files, checksum list, indexes and package records agree. |
| ReleasePublisher.ValidIff | scripts/publish-release-feed.py:24-53 | In full: regular files only, namely packages, indexes, source.json and SHA256SUMS; one line with the right digest for each but the last; format 2; the digests of exactly two indexes; and digest and size of every package. |
| ReleasePublisher.PackagesFirstIff | scripts/publish-release-feed.py:83-85 | Where package names end in .ipk, packages come first exactly if an index, source.json or SHA256SUMS is there only with every package of the provenance. |
| ReleasePublisher.InUploadOrder | scripts/publish-release-feed.py:84 | All missing files once, those ending in ".ipk" before anything else, each part in order of names. |
| ReleasePublisher.UploadAll | scripts/publish-release-feed.py:83-85 | Uploading in that order keeps packages before indexes at every point where the run may die, also beside other runs. |
| ReleasePublisher.CheckRelease | scripts/publish-release-feed.py:57-82 | An existing release is refused for exactly the first check that fails, before anything is uploaded. |
| ReleasePublisher.Publish | scripts/publish-release-feed.py:16-88 | A run on a release in any state: nothing replaced or removed, public only with exactly the snapshot's bytes; where package names end in .ipk, Packages, Packages.gz, source.json or SHA256SUMS is there only with every package of the provenance; exact refusals without change. |
| ReleasePublisher.Reruns | scripts/publish-release-feed.py:54-88 | Over every sequence of runs that may die at any step nothing is replaced or removed and public is final and complete; where package names end in .ipk, whenever Packages, Packages.gz, source.json or SHA256SUMS is there, so is every package of the provenance; no run is refused, and one undisturbed run publishes. |
| ShardSelect.TextInjective | scripts/select-userspace-shard.py:35 | The hashed text determines the recipe list when names have no line breaks. |
| ShardSelect.TextIs | scripts/select-userspace-shard.py:35 | The text is the lines with line breaks between them and one at the end. |
| ShardSelect.RecipeIs | scripts/select-userspace-shard.py:19-30 | A package has a recipe exactly if it is enabled, no kernel package, and the last line about it with a userspace recipe names that one; kernel/om-watchdog is one. |
| ShardSelect.ManifestSays | scripts/select-userspace-shard.py:33-46 | The recipes of a manifest are every count-th one from its index on, to the end of the list; total and digest are those of the whole list; its packages are those with one of these recipes, in order. |
| ShardSelect.ShardsPartition | scripts/select-userspace-shard.py:33-34 | The strided shards are not empty, sizes differ by at most one, every recipe is in exactly one. |
| ShardSelect.Select | scripts/select-userspace-shard.py:15-46 | The manifest of a shard, or an error exactly if there are fewer recipes than shards. |
| ShardSelect.PackageInOneShard | scripts/select-userspace-shard.py:42-45 | Every package with a recipe is in exactly one shard. |
| ShardCoverage.Check | scripts/merge-userspace-shards.py:54-89 | Reports no problem exactly if the artifacts are accepted: all shards once, with output, and agreeing on a fully covered recipe list. |
| ShardCoverage.AcceptedIff | scripts/merge-userspace-shards.py:54-89 | In full: every shard has output or a report, indexes are distinct and none is missing, and if there are count shards they agree on digest, total and count, and their recipes are distinct, as many as the total, and in order have the digest. |
| ShardCoverage.CoverageCheckedIff | scripts/merge-userspace-shards.py:75-89 | For accepted artifacts the recipe coverage has been checked if and only if no shard index lies beyond the count. |
| ShardCoverage.ExtraShardPasses | scripts/merge-userspace-shards.py:79 | One shard too many and the coverage check is skipped: an accepted set that does not agree on the recipes. |
| ShardCoverage.AcceptedIsPartition | scripts/merge-userspace-shards.py:79-89 | Exactly count accepted artifacts form an exact partition of the recipe list with that digest. |
| ShardCoverage.SelectedIsAccepted | scripts/merge-userspace-shards.py:54-89 | The shards that selection makes are always accepted, in whatever order they are found. |
| ShardMerge.Collect | scripts/merge-userspace-shards.py:102-122 | Fails exactly if a package is assigned twice or a file is in an unknown feed; otherwise gives the owner of every package and all files offered for it. |
| ShardMerge.PickIs | scripts/merge-userspace-shards.py:131-133 | The file taken is the owner's if the owner built it, else one of the lowest-numbered shard that did. |
| ShardMerge.Merge | scripts/merge-userspace-shards.py:54-142 | Succeeds exactly on mergeable artifacts, with the exact error otherwise, and gives the specified feed. |
| ShardMergeLaws.WinnerIs | scripts/merge-userspace-shards.py:127-138 | The file merged for a package was made by some shard for that feed and package, and is the one the owner rule names. |
| ShardMergeLaws.FeedHolds | scripts/merge-userspace-shards.py:37-51 | A merged feed has one stanza for every package, in order of file names, with the chosen file's control text and size and digest of the file of that name; that file is the chosen one exactly if the last package with that file name has the same bytes, so always where file names are distinct. |
| ShardFeed.FeedSays | scripts/merge-userspace-shards.py:104-142 | In terms of the artifacts: for every package that some readable, well named userspace file of a shard offers to a feed, the feed has a stanza of such a file, from the shard the package is assigned to if that one offers it and else from a lowest-numbered one, with its control text and the length and digest of the file of its name. |
| ShardFeed.MergeableIff | scripts/merge-userspace-shards.py:54-130 | Accepted artifacts can be merged exactly if no package is assigned twice, every file lies in one of the six feeds, some shard offers something, and all offers of one package to a feed have one version and architecture. |
| ShardMergeLaws.UnderscoreFreeOwnFile | scripts/merge-userspace-shards.py:31-33 | File names are distinct where no version has an underscore and only the two architectures occur. |
| ShardMergeLaws.EnumerationDoesNotMatter | scripts/merge-userspace-shards.py:110-142 | The merged feed is the same in whatever order the files of an artifact are enumerated. |
| ShardMergeLaws.MergeableEitherWay | scripts/merge-userspace-shards.py:54-130 | Nor does that order decide whether the merge succeeds. |
| TextLines.FirstLine | scripts/kernel_firmware.py:73 | The first line of a text ends at the first of the ten line-break characters; a carriage return and a line feed behind it are one break. |
| KernelConfig.ConfigOptions | scripts/kernel_firmware.py:71-85 | The parser's loop gives the specified options, a duplicate error or an empty error. |
| KernelConfig.LineSays | scripts/kernel_firmware.py:73-79 | A line speaks of an option exactly if it is the name, =, the value, with no = in the name, or "# ", the name, " is not set" for the value n; the name begins with CONFIG_. |
| KernelConfig.ParsedSays | scripts/kernel_firmware.py:71-85 | An option has a value exactly if some line says so. |
| KernelConfig.ParsedIffNoRepeats | scripts/kernel_firmware.py:80-81 | A text is refused as duplicate exactly if two of its lines speak of one option. |
| KernelConfig.ParsedWellFormed | scripts/kernel_firmware.py:73-79 | Everything that was read can be printed without ambiguity. |
| KernelConfig.PrintedReadsBack | scripts/prepare-firmware-kernel-config.py:29-30 | A printed configuration reads back as exactly the same options. |
| KernelConfig.PrintedSays | scripts/prepare-firmware-kernel-config.py:29-30 | What is printed: one line for each option in order of names, "# name is not set" for the value n and name=value else. |
| KernelConfig.Adapt | scripts/prepare-firmware-kernel-config.py:19-25 | Where reference and target differ, absence included, the target decides; elsewhere the base. |
| KernelConfig.Prepare | scripts/prepare-firmware-kernel-config.py:13-30 | The prepared text reads back as the adapted options, legibly exactly if some option that reference and target agree on is in the base, or one they differ on is in the target; mismatches and unreadable inputs exactly when they occur. |
| KernelConfig.NothingLeft | scripts/kernel_firmware.py:83-84 | Three legible configuration texts for which no such option exists, so that what is printed is refused. |
| KernelExports.ScanRuns | scripts/kernel_firmware.py:202-215 | Collects, in order, exactly the stretches of at least 128 valid entries that cannot be extended, and so exactly the names that lie in some 128 consecutive valid entries. |
| KernelExports.CollectedIff | scripts/kernel_firmware.py:202-216 | A name is collected exactly if it lies in some 128 consecutive valid entries. |
| KernelExports.SymbolIff | scripts/kernel_firmware.py:192-200 | An address has a name exactly if an identifier of at most 151 bytes starts there and a zero byte follows. |
| KernelTables.InTableIff | scripts/kernel_firmware.py:202-216 | In terms of the bytes: a name is collected exactly if it is in one of 128 consecutive pairs of words, at any word, whose first is within the image plus 64 MiB and whose second is the address of a name. |
| KernelTables.TableIff | scripts/kernel_firmware.py:202-215 | A table whose length is reported: at least 128 such pairs that cannot be extended. |
| KernelTables.EntriesAre | scripts/kernel_firmware.py:205-207 | Which words entry j of a parity is made of, and when it is valid. |
| KernelTables.NameIff | scripts/kernel_firmware.py:200 | A name has 1 to 151 letters, digits and underscores and does not begin with a digit. |
| KernelTables.PlausibleIff | scripts/kernel_firmware.py:186 | A base is one of the pages from 0x80000000 to 0xffff0000. |
| KernelExports.ScanPositions | scripts/kernel_firmware.py:178-184 | The search loop gives the specified positions. |
| KernelExports.AllFoundIff | scripts/kernel_firmware.py:178-184 | It finds every occurrence of an anchor if and only if no two occurrences share the zero byte between them. |
| KernelExports.SecondNotFound | scripts/kernel_firmware.py:184 | An image in which the second of two such occurrences is not found. |
| KernelExports.FindBase | scripts/kernel_firmware.py:176-190 | Gives the one base common to all four anchors, or none exactly if there is no such single base. |
| KernelExports.BaseIsConsistent | scripts/kernel_firmware.py:176-190 | The base agrees with an occurrence of each anchor. It is the only one that does where no two occurrences of an anchor share a zero byte, and in general exactly if no other base that some word gives with a missed occurrence agrees with every anchor. |
| KernelExample.OtherBaseIsConsistent | scripts/kernel_firmware.py:176-190 | An image in which the search settles on one base while another agrees with every anchor. |
| KernelExports.KernelExports | scripts/kernel_firmware.py:167-220 | Reports exactly the names in a table of at least 128 entries at either parity, and the lengths of exactly those tables, with exact conditions for both errors. |
| PackageIndex.FieldIff | scripts/publication_layout.py:37-38 | A line gives a field exactly if it is the key, ": " and the value, the key has no ": " before that, and the line does not begin with white space. |
| PackageIndex.FieldsSay | scripts/publication_layout.py:37-38 | Of a repeated field the last line counts. |
| PackageIndex.Controls | scripts/publication_layout.py:41-48 | The control text of a stanza: its lines without those of transport fields. |
| PackageIndex.KeepIs | scripts/publication_layout.py:41-48 | These are the lines, in order, whose last header at or before them is none of Filename, Size, SHA256sum and MD5Sum; a header is a line with a colon that does not begin with white space. |
| PackageIndex.ReadSection | scripts/publication_layout.py:82-91 | The reader's loop gives the specified records, or invalid at the first bad stanza. |
| PackageIndex.SectionIs | scripts/publication_layout.py:82-91 | A section is invalid exactly if some part of it is neither blank nor an accepted stanza; else its records are those of its stanzas. |
| PackageIndex.StanzaIsGood | scripts/publication_layout.py:66-79 | A stanza is accepted exactly if it has the six fields, the file is a plain name of a file that is there, digest and size are those of the file, and in the userspace index the package is no kernel package and not gcc. |
| PackageIndex.StanzaIs | scripts/publication_layout.py:51-54 | What is printed for a record: its control text and the lines Filename, Size and SHA256sum. |
| PackageIndex.IndexIs | scripts/publication_layout.py:51-54 | An index is the stanzas of its records in order of file names, each with an empty line behind it. |
| PackageIndex.SpacesAre | scripts/publication_layout.py:38-44 | White space is what the language calls so, by code point. |
| PackageIndex.StanzaReads | scripts/publication_layout.py:66-79 | A printed stanza of a record in normal form reads back as that record. |
| PackageIndex.IndexReadsBack | scripts/publication_layout.py:51-91 | A printed index reads back as the same records in the order of file names. |
| PackageIndex.PrintedAgain | scripts/publication_layout.py:51-54 | Printing them again gives the same text. |

## Left out

- The arithmetic of AES, SHA and HMAC, the vendor driver and the registration with the kernel: an invertible cipher and arbitrary hash functions stand for them.
- Scatterlists of more than one entry: both crypto models read and write one stretch of memory per list. The borrowed path itself requires that.
- The data of a job while a callback overlaps its submission: `CbcEngine` has atomic methods, `CbcHandOver` and `CbcKeyRace` have the interleavings, of the accesses to a job and of the tests for a key, without the data.
- What a transform holds after it has refused a key: the models keep its old key.
- Initialisation and exit of both transforms, `hybrid_key`, and the counters of encrypted and decrypted chunks.
- The regular expressions and the comma-separated fields that the resolver takes apart, control files, maintainer scripts, archives, reports and Markdown: the resolver works on their parsed content. Candidate profiles publish to their own feed by the same code.
- ShardCoverage.AcceptedIsPartition: recipe names are not empty and have no line breaks, as the expression that reads them guarantees; without that the digest would not determine the list.
- ReleasePublisher.Validate: agreement of tag, revision and URL with the provenance is one Boolean fact, because the tag is a shortened digest and the rest is text formatting; the line syntax of SHA256SUMS is not modelled.
- ComponentPublisher.Publish: every listed asset has a digest; a second release created with the same tag, and the retries inside one request, are not modelled.
- RepairMerge.Merge: the payload check of another script, the failure lists and provenance files in the repair directories, the compressed copy of each index, the removal of stale supplemental indexes and the report are left out.
- ShardMerge.Merge: of the failure reports only their presence counts; the report text is left out.
- PackageIndex.ReadSection: a size is read as plain decimal digits, without the blanks, signs and underscores the language's own conversion also takes; symbolic links and the fields that are only carried along are left out.
- KernelConfig.Prepare: a required value is a text; the decompression of the three inputs is left out.
- Decryption of firmware images, the extraction of embedded configurations, ELF parsing, page generators, shell scripts and the other feed scripts.

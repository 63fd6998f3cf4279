# Nexpack in Dafny

Nexpack puts an app into one file: an ELF stub, a header that starts with `NX02`, the app's layer
images, and optionally the two binaries the stub needs on a machine that has nothing installed.
Layers live in a content-addressed store; a daemon mounts them and hands out a seccomp filter.
This project models those parts and proves what they promise each other.

| file | part |
|---|---|
| `ByteCodec.dfy` | bytes, fixed-width integers, `Option`, `Result` |
| `Bootstrap.dfy` | the bootstrap section and its trailer: encoder and parser of the library |
| `Stub.dfy`, `StubAgreement.dfy`, `StubSearch.dfy` | the C stub: I/O loops, extractor, PATH search; its agreement with the library |
| `Permission.dfy`, `Seccomp.dfy` | the filter compiler, a classic-BPF decoder and interpreter |
| `Policy.dfy` | glob matching and trust-policy lookup |
| `Cbor.dfy` | the hand-written CBOR encoder and a decoder from RFC 8949 |
| `Wire.dfy`, `Header.dfy`, `Bundle.dfy` | the header, layer arithmetic, the layer check |
| `Pack.dfy`, `SelfExtract.dfy`, `Export.dfy` | writing, signing and rebuilding bundles |
| `Store.dfy`, `Update.dfy`, `Lifecycle.dfy` | the store, updates, runs of operations |
| `Restart.dfy`, `RestartExamples.dfy`, `Interrupted.dfy` | interrupted updates: running them again, what that does not repair, collecting after one |
| `Daemon.dfy` | the mount table and its idle cleaner |

Code that works step by step is a method, on a class where the source has an object, and is proved
equal to a function of its inputs and of the old state; the properties are lemmas about those functions.

## Assumptions

- BLAKE3 is any function from bytes to 64 lower-case hexadecimal characters. Only
  `Export.InstallThenExport`, `Export.InstalledImages` and the results on restarting an update ask that it tell
  apart the byte strings in play.
- The Cap'n Proto encoding of the header is replaced by a concrete self-delimiting encoding
  (`Wire.dfy`). The other files use only that a record is read back whatever follows it and that
  no proper prefix of one is read.
- `String::from_utf8_lossy` is any function on bytes; a name is valid UTF-8 when it is left alone.
- File contents, system-call outcomes, the answers of update servers, signatures, the SBOM and
  clocks are inputs. A system call of the stub transfers some positive part of what it was asked to, or fails.
- A `Vec` or file is shorter than 2^63 bytes. Sums of `usize` and `u64` wrap as in a release build.
- In the store's links a digest and an app id are one path component each. Store operations outside an interrupted
  update complete without I/O errors, except that a collection's removals may fail.
- Restarting an update asks it in this form: the images that the servers deliver for one digest of a release are the
  same (`OneImage`). If they are not, the hash collides (`TwoImagesCollide`).

## Where the code and its promises part

- The `current` link, as README.md:143 of the repository documents it, climbs one directory too many: an app directory
  lies two levels below the store. For every app in this model, whose id is one path component, the link leaves the
  store. `CurrentLinkResolvesIff` says exactly when such a link leads to the image. The other results are about the
  digest that the link names, not about where it leads.
- An update that is stopped inside a file write is not repaired by running it again: a partly written
  image counts as present, and partly written metadata no longer parses (`TornImageExample`, `TornMetaExample`).
- An update that fails in its downloads may go further when run again, as when a feed lists one digest at two places of
  which one is dead (`TwoSourcesDiverge`). `RestartReachesSameStateIff` says exactly for which updates every stop outside
  a write is repaired by running again.
- A collection that runs after an update was stopped between its `current` link and its gc root can delete the image
  that `current` names (`CollectionLosesCurrent`); `CollectionAfterStopIff` says exactly when.
- Layer sizes whose sum wraps can make extraction return bytes outside the layer or panic (`WrappedSizesExtract`);
  `ExtractIsIdealIff` gives the exact condition, and a bundle whose layers all extract has no wrapped sum.
- Installing a bundle without layers leaves an app whose `current` names no layer (`LayerlessInstall`).
- A collection's scan of the `current` links protects nothing (`OnlyRootsProtect`).
- A signed bundle keeps its bootstrap size but not its bootstrap section (`SigningPreserves`).
- When every client unmount releases its overlay, the idle cleaner never finds anything (`NothingForTheCleaner`).

## Model

| member | source | states |
|---|---|---|
| Bootstrap.MakeBootstrapData | nexpack-core/src/lib.rs:174-185 | the encoding of a list of named binaries, with lengths cut to 16 and 32 bits |
| Bootstrap.EntryLayout | nexpack-core/src/lib.rs:178-182 | an entry is its name length modulo 2^16, the name, its data length modulo 2^32, and the data, also when a length does not fit |
| Bootstrap.SectionLayout | nexpack-core/src/lib.rs:174-185 | a section is its count modulo 2^32 and then the entries one after another, and ends with the last |
| Bootstrap.ParseBootstrapEntries | nexpack-core/src/lib.rs:139-172 | the entries with their decoded names, or which of the five truncations was hit |
| Bootstrap.SectionRoundTrip | nexpack-core/src/lib.rs:139-185 | whatever follows an encoding, parsing gives back the entries and leaves exactly what followed |
| Bootstrap.AcceptsExactlyEncodings | nexpack-core/src/lib.rs:139-185 | the parser accepts an input with these entries if and only if the input starts with their one encoding and every length fits its field |
| Bootstrap.RejectsTruncation | nexpack-core/src/lib.rs:139-172 | every proper prefix of an encoding is rejected |
| Bootstrap.TruncationError | nexpack-core/src/lib.rs:139-172 | an encoding cut inside an entry is rejected with the error of the field the cut is in |
| Bootstrap.CountTruncation | nexpack-core/src/lib.rs:139-142 | one cut inside the count is too short |
| Bootstrap.ParserRoundTrip | nexpack-core/src/lib.rs:139-185 | with valid UTF-8 names, parsing an encoding followed by anything returns the entries |
| Bootstrap.ParserDecodesNames | nexpack-core/src/lib.rs:139-185 | with any names, parsing an encoding followed by anything returns the entries under their decoded names |
| Bootstrap.ParserIsCanonical | nexpack-core/src/lib.rs:139-185 | re-encoding what was parsed gives a prefix of the input |
| Bootstrap.TrailerRoundTrip | nexpack-core/src/lib.rs:125-137 | the trailer reader returns a pair if and only if the last 20 bytes are the trailer written for that pair |
| Bootstrap.TrailerLayout | nexpack-core/src/lib.rs:187-193 | a trailer is "NXBT", the offset and the size, both in little-endian order |
| StubIo.ReadAll | stub/stub.c:131-140 | under any short reads the buffer gets exactly the next bytes, and on a working device it fails only at end of file |
| StubIo.WriteAll | stub/stub.c:120-129 | under any short writes the file grows by exactly the buffer |
| Stub.ReadBootstrapTrailer | stub/stub.c:211-248 | returns 0 exactly for files whose trailer the library reads, with the same pair |
| Stub.JoinPath | stub/stub.c:285-296 | the 512-byte path buffer is never overrun, is NUL-terminated, and holds the directory, a slash and the C string of the name, cut to fit |
| Stub.PathIsCut | stub/stub.c:285-296 | that path is the joined one cut to 511 bytes, or 510 bytes of the directory and a slash when the directory alone is longer |
| Stub.CopyData | stub/stub.c:298-309 | the file gets exactly the declared bytes; data that ends early leaves the complete 4096-byte chunks |
| Stub.ReadEntryHead | stub/stub.c:268-283 | the length fields and name that the stream holds, refusing names of 256 bytes or more |
| Stub.ExtractOne | stub/stub.c:268-312 | one round takes one entry off the stream and writes its file, or fails where the streaming specification fails |
| Stub.ExtractSelfBootstrap | stub/stub.c:250-316 | success means exactly the specified files; on a working device the return value and the files, also after a failure, are the specified ones; on any device a run that gives up leaves the files of some first entries, complete, and perhaps a part of the next one |
| Stub.OtherFilesLeft | stub/stub.c:250-316 | giving up removes no file and changes only paths that entries are extracted to |
| StubAgreement.ExtractsWhatParses | stub/stub.c:268-316 | the stub succeeds if and only if the library would parse as many entries and every name fits and can be opened, and then writes those entries in order |
| StubAgreement.FailedExtraction | stub/stub.c:268-316 | a failed extraction leaves the files of the entries before the first that cannot be read or written, and of that one, when only its data is cut short, the complete 4096-byte chunks |
| StubAgreement.SliceOrStream | stub/stub.c:256-268 | the library accepts the trailer's slice if and only if reading on from its start succeeds and stays inside it |
| StubAgreement.StubAgreesWithParser | stub/stub.c:250-316 | when the library accepts the slice named by the trailer, the stub extracts exactly the parsed entries, if and only if names fit and paths can be opened |
| StubAgreement.StubExtractsOnlyParsed | stub/stub.c:250-316 | whatever the stub extracts successfully is what the library parses at that offset |
| StubAgreement.LastEntryWins | stub/stub.c:301-311 | of entries with the same path the last one's data is in the file |
| StubAgreement.OtherPathsKept | stub/stub.c:301-311 | a path that no entry has keeps its file |
| StubAgreement.PathFits | stub/stub.c:285-296 | a directory and a NUL-free name of at most 255 bytes each are joined uncut |
| StubAgreement.PathsDiffer | stub/stub.c:285-296 | such names share a path only when they are equal |
| StubSearch.EnvGet | stub/stub.c:166-181 | nothing without an environment, otherwise the looked-up value |
| StubSearch.EnvValueIsFirst | stub/stub.c:166-181 | the value is what follows `name=` in the first entry that starts so, and there is none exactly when no entry does |
| StubSearch.SplitJoins | stub/stub.c:188-207 | the components of PATH, joined with colons, are PATH again |
| StubSearch.NextDirectory | stub/stub.c:190-207 | advancing past one colon enumerates the components, with a trailing empty one dropped |
| StubSearch.FirstHitIsFirst | stub/stub.c:190-208 | the result is the first directory, a slash and the name that with a NUL stays below the buffer size and is accessible, and there is none exactly when no directory qualifies |
| StubSearch.SearchesPath | stub/stub.c:183-209 | the directories searched are those of the first environment entry that starts with `PATH=` |
| StubSearch.FindInPath | stub/stub.c:183-209 | returns 0 exactly when such a directory exists and then leaves its NUL-terminated path in the buffer, never writing outside it |
| Seccomp.BlockSyscalls | nexpackd/src/sandbox.rs:182-203 | the emitted bytes, for any list of calls |
| Seccomp.GenerateSeccompFilter | nexpackd/src/sandbox.rs:162-180 | the allow-all program for an app with network access, the deny-list program otherwise |
| Seccomp.InsnRoundTrip | nexpackd/src/sandbox.rs:221-237 | an emitted instruction decodes to its code, jumps and constant |
| Seccomp.FilterEncodes | nexpackd/src/sandbox.rs:182-203 | the emitted bytes are the encoding of the guard, two instructions per call, and the final allow |
| Seccomp.FilterBytes | nexpackd/src/sandbox.rs:182-237 | the bytes of every instruction of the filter for any list |
| Seccomp.DenyListMeaning | nexpackd/src/sandbox.rs:182-203 | for any list and any call data, decoding and interpreting the bytes kills a foreign architecture, returns EPERM for listed calls and allows the rest |
| Seccomp.OnlyMembershipMatters | nexpackd/src/sandbox.rs:196-199 | order and repetition in the list never matter |
| Seccomp.SandboxMeaning | nexpackd/src/sandbox.rs:162-203 | every call is allowed unless the network permission is a plain no; then calls 41 to 54, 57 and 288 get EPERM on x86-64, the rest is allowed, and any other architecture is killed |
| Seccomp.SandboxIsAccepted | nexpackd/src/sandbox.rs:162-203 | the filter of every app decodes to a program that passes the kernel's checks |
| Seccomp.FilterIsAcceptedIff | nexpackd/src/sandbox.rs:182-203 | every instruction passes the kernel's checks, every jump stays inside and the last instruction returns, so the kernel takes the program if and only if the list has at most 2045 calls; the length is eight bytes for each of 5 + 2n instructions |
| Seccomp.AcceptedNeverFaults | nexpackd/src/sandbox.rs:182-203 | any program that passes those checks ends in a return |
| Policy.WildMatchRecursive | nexpack-core/src/signing.rs:164-183 | decides the match relation |
| Policy.MatchIsSplit | nexpack-core/src/signing.rs:164-183 | a match exists if and only if the text splits into one covered piece per pattern character |
| Policy.ConcatMatch | nexpack-core/src/signing.rs:164-183 | a concatenated pattern matches if and only if some split of the text has both parts matching |
| Policy.SelfMatch | nexpack-core/src/signing.rs:164-183 | every text matches itself as a pattern |
| Policy.MatchPolicy | nexpack-core/src/signing.rs:131-147 | the exact key if present, otherwise a matching pattern of greatest UTF-8 length, and nothing if and only if nothing matches, for every iteration order |
| Policy.Utf8TextRoundTrip | nexpack-core/src/signing.rs:139-140 | the bytes that are counted are the UTF-8 encoding: a decoder after RFC 3629 reads the text back from them |
| Cbor.EncodesIffInBounds | build-test-bundle.py:37-88 | encoding succeeds if and only if every number, length and count, at every depth, fits its field |
| Cbor.EncodeFailsAtFirst | build-test-bundle.py:37-88 | an encoding that fails does so with the first thing that is wrong in the order of the output |
| Cbor.RoundTrip | build-test-bundle.py:37-88 | the RFC 8949 decoder reads the encoding of any nested value, followed by anything, back as that value and leaves what followed |
| Cbor.PrefixFree | build-test-bundle.py:37-88 | no encoding is a prefix of another, and equal encodings are of equal values |
| Cbor.HeadIsShortest | build-test-bundle.py:70-88 | no head with the same major type and argument is shorter than the shortest head of section 4.1 of RFC 8949 |
| Cbor.PrefixIsShortest | build-test-bundle.py:70-88 | string, list and dictionary heads are that shortest head, or an error from 2^32 on |
| Cbor.IntIsShortest | build-test-bundle.py:42-53 | integers are encoded by that shortest head, or rejected when negative or from 2^64 on |
| Cbor.Canonical | build-test-bundle.py:37-67 | what a decoder of preferred heads reads as an encodable value is that value's encoding |
| Cbor.EncodesPreferred | build-test-bundle.py:37-88 | the encoder's output is the one input that such a decoder reads as the value |
| Header.MagicAt | nexpack-core/src/header.rs:29-35 | the search finds the first occurrence of the magic, and nothing only when there is none |
| Header.MagicAfter | nexpack-core/src/header.rs:29-35 | a header after a stub is found right there if and only if the stub has no magic, since the magic does not overlap itself |
| Header.ParseEncoded | nexpack-core/src/header.rs:29-158 | parsing inverts encoding up to normalisation, after anything without the magic and before anything, with the offset and length of the header |
| Header.ParseErrorIff | nexpack-core/src/header.rs:29-44 | parsing fails for want of a magic if and only if no window of the data is it, and otherwise only when no record follows the first one |
| Header.ParsesOnlyWhole | nexpack-core/src/header.rs:38-44 | a header cut short anywhere is not parsed |
| Header.NormalIsIdempotent | nexpack-core/src/header.rs:123-142 | turning empty fields into absent ones is idempotent and does not change the encoding |
| Header.ParsedIsNormal | nexpack-core/src/header.rs:123-157 | a parsed header is in normal form, lies inside the data, and has no magic before it |
| BundleFile.Bundle.LayersEnd | nexpack-core/src/lib.rs:59-65 | the wrapped sum of the header end and all layer sizes |
| BundleFile.Bundle.ExtractLayer | nexpack-core/src/lib.rs:67-91 | the slice, the index error, the bounds error, or the panic of a wrapped end |
| BundleFile.ExtractIsIdealIff | nexpack-core/src/lib.rs:67-91 | extraction gives the layer's own slice or the bounds error if and only if the layer's end does not wrap or still lies past the file |
| BundleFile.WrappedLayer | nexpack-core/src/lib.rs:67-91 | otherwise it panics or returns what lies between the wrapped offsets |
| BundleFile.OutOfRangeIff | nexpack-core/src/lib.rs:67-73 | the index error is given if and only if there is no such layer, with the index and the count |
| BundleFile.WrappedSizesExtract | nexpack-core/src/lib.rs:67-91 | a file that is nothing but a header with layer sizes 2^64 - 1 and 1 parses; its first layer panics and its second is the last byte of the header |
| BundleFile.ExtractedInOrder | nexpack-core/src/lib.rs:67-91 | when every layer extracts, no sum wrapped and the layers lie one after another inside the file |
| BundleFile.VerifiedIff | nexpack-core/src/verify.rs:7-22 | the check passes if and only if every layer is in the file and hashes to its digest |
| BundleFile.FirstFailure | nexpack-core/src/verify.rs:7-22 | a check that does not pass fails with the error, or the two digests, of the first layer that does not verify |
| BundleFile.LayoutExtracts | nexpack-core/src/lib.rs:55-91 | images written one after another after the header come back from their own index, and the layers end where the images do |
| BundleFile.BootstrapIsIdeal | nexpack-core/src/lib.rs:98-116 | a declared section that does not wrap is the bytes after the layers, or nothing when it reaches past the file |
| BundleFile.BootstrapWrapped | nexpack-core/src/lib.rs:98-116 | in general it is what lies between the wrapped offsets, nothing when that reaches past the file, and a panic when they are out of order |
| BundleFile.ExtractBootstrapError | nexpack-core/src/lib.rs:118-123 | which failure extracting the embedded binaries gives, and when |
| Packing.Pack | nxpk/src/commands/pack.rs:54-127 | the written file, or the error for no layers |
| Packing.PackedParses | nxpk/src/commands/pack.rs:94-119 | a packed file parses, at the end of the stub, to the header that was packed |
| Packing.PackedFields | nxpk/src/commands/pack.rs:94-107 | the parsed header has version 1, the spec's id, version, entrypoint, permissions and SBOM, each layer's role, `blake3:` digest and size, no signature and no update URL |
| Packing.PackedLayers | nxpk/src/commands/pack.rs:57-119 | every image comes back from its layer, the layers end where they were written, and the layer check passes |
| Packing.PackedBootstrap | nxpk/src/commands/pack.rs:121-127 | the header's bootstrap offset, the end of the layers and the trailer agree, and the section there is the encoded entries |
| Packing.PackedEnd | nxpk/src/commands/pack.rs:121-127 | a packed file with embedded binaries ends with their section and 20 bytes of trailer |
| Packing.PackedWithoutBootstrap | nxpk/src/commands/pack.rs:109-127 | without them it ends with its layers and declares no section |
| Packing.PackFindsHeaderIff | nxpk/src/commands/pack.rs:114-119 | the header of a packed file is found at the end of the stub if and only if the stub has no magic of its own |
| Packing.PackEntriesRoundTripIff | nxpk/src/commands/pack.rs:192-230 | the embedded binaries come out as they went in if and only if each is shorter than 2^32 bytes |
| Packing.ArtifactBytes | nexpack-core/src/signing.rs:5-15 | the header without its signature, then the digests |
| Packing.ArtifactParses | nexpack-core/src/signing.rs:5-15 | what is signed parses to the header without its signature, and after that has the layers' digests in order |
| Packing.SignedAlikeIff | nexpack-core/src/signing.rs:5-15 | two bundles have the same bytes to sign if and only if their headers agree in everything but signature, place and empty fields |
| Packing.SignBundle | nxpk/src/commands/sign.rs:6-73 | the rewritten file, nothing for a signed bundle, or the first layer error |
| Packing.SignsIff | nxpk/src/commands/sign.rs:6-73 | a bundle is signed if and only if it parses, has no signature and all layers extract, and left alone if and only if it has one |
| Packing.SigningFailsAtFirst | nxpk/src/commands/sign.rs:70-72 | otherwise the error is that of the first layer that does not extract |
| Packing.SigningPreserves | nxpk/src/commands/sign.rs:49-73 | after signing and parsing again the artifact bytes, the stub, every layer and every other field are unchanged for any signature, the file ends with its layers, and no bootstrap section is left to read |
| SelfExtract.PackedBundleExtracts | nxpk/src/commands/pack.rs:109-127 | the stub of a packed bundle extracts exactly the embedded binaries, one or both, under their names and touches no other file |
| Export.ExportApp | nxpk/src/commands/export.rs:7-44 | the rebuilt file, or the first thing missing or failing its check |
| Export.ExportedFile | nxpk/src/commands/export.rs:16-44 | an exported file is the stub, the encoding of the stored header and the stored images of its layers in order |
| Export.ExportsIffSound | nxpk/src/commands/export.rs:12-42 | from any store an app is exported if and only if its metadata parses and every layer it lists is stored under the hash of its image |
| Export.ExportErrorIff | nxpk/src/commands/export.rs:12-25 | an app counts as not installed if and only if it has no metadata, and metadata that does not parse gives the parser's error |
| Export.ExportFailsAtFirst | nxpk/src/commands/export.rs:27-42 | otherwise the error names the first layer that is missing or has another digest |
| Export.InstalledImages | nxpk/src/commands/install.rs:10-29 | after installing a verified bundle every layer's stored image is the bundle's, also for layers that were skipped |
| Export.InstallThenExport | nxpk/src/commands/export.rs:16-44 | exporting right after an install gives a bundle with the same header fields and the same bytes from every layer, and its layers verify |
| ContentStore.Store.StoreLayer | nexpack-core/src/store.rs:59-73 | the layer directory holds the image and nothing else changes |
| ContentStore.Store.RegisterApp | nexpack-core/src/store.rs:75-96 | the app has the metadata and a link to the digest, and nothing else changes |
| ContentStore.Store.RemoveApp | nexpack-core/src/store.rs:98-107 | the app directory is gone; roots and layers stay |
| ContentStore.RemovedApp | nexpack-core/src/store.rs:98-107 | the app is gone, every other app, every root and every layer is as before |
| ContentStore.Store.AddGcRoot | nexpack-core/src/store.rs:133-148 | the root names the digest, replacing an earlier one |
| ContentStore.Store.Gc | nexpack-core/src/store.rs:150-214 | exactly the unreachable layer directories are removed, each fully, partly or not at all as the removal goes, and the returned number is how many were unreachable, failed removals included |
| ContentStore.FailedRemovals | nexpack-core/src/store.rs:199-211 | whatever removals fail, what is reachable is kept, nothing is new or changed, and a later collection that succeeds ends as if this one had |
| ContentStore.RemovalsDo | nexpack-core/src/store.rs:199-211 | each removal leaves of an unreachable directory what it leaves, and the count is of what a collection without failures takes away |
| ContentStore.SurvivesIff | nexpack-core/src/store.rs:156-211 | for any links, a directory survives if and only if it is the last component of a root's target or of some app's `current`, other than `..` |
| ContentStore.OnlyRootsProtect | nexpack-core/src/store.rs:178-188 | a layer survives a collection, unchanged, if and only if a gc root names it; the scan of `current` links adds nothing |
| ContentStore.CollectTwice | nexpack-core/src/store.rs:150-214 | a collection changes no app and no root, and a second one removes nothing |
| ContentStore.RootedLayerSurvives | nexpack-core/src/store.rs:156-176 | the image a root names is still there, with the same bytes, whatever removals fail |
| ContentStore.RootLinkResolves | nexpack-core/src/store.rs:140-143 | a gc root leads to the layer directory it names |
| ContentStore.CurrentLinkResolvesIff | nexpack-core/src/store.rs:87-90 | the `current` link leads to the image if and only if the app id has two path components; for an id of one component, as every app in this model has, it leaves the store |
| Update.FindsFirst | nexpack-core/src/update.rs:25-31 | the release found is the first of the wanted version, and there is none if and only if no release has it |
| Update.MissingLayers | nexpack-core/src/update.rs:35-43 | the release's layers without a stored image, in order |
| Update.DownloadLayers | nxpk/src/commands/update.rs:71-84 | the effects of downloading, checking and storing, up to the first failure |
| Update.SwitchCurrent | nxpk/src/commands/update.rs:94-102 | the link is replaced by a rename, then the gc root |
| Update.CheckAndApplyUpdates | nxpk/src/commands/update.rs:25-120 | the effects and the result of a whole update |
| Update.WantsReleaseIff | nxpk/src/commands/update.rs:30-64 | a release is applied if and only if the feed of the app's update URL is for the app, names another version than the installed one, and this is its first release of that version |
| Update.WantsNothingIff | nxpk/src/commands/update.rs:37-59 | there is nothing to do if and only if the app has no update URL or its feed names the installed version |
| Update.WantsErrorIff | nxpk/src/commands/update.rs:30-64 | exactly when each of the five refusals is given |
| Update.DownloadsGoThroughIff | nxpk/src/commands/update.rs:66-85 | the downloads go through if and only if every layer is stored or delivered with its size and digest, and otherwise fail with what is wrong with the first that is neither |
| Update.UpdateGoesThroughIff | nxpk/src/commands/update.rs:25-120 | an update succeeds if and only if it has nothing to do, or a release to apply of which every layer is stored or can be had |
| Restart.UpFrontIsStepwiseIff | nxpk/src/commands/update.rs:66-85 | listing the missing layers once comes to the same as looking before each layer if and only if the release is resumable: its downloads go through, or what is missing after they failed starts with a layer that cannot be had |
| Restart.StepwiseResumes | nxpk/src/commands/update.rs:66-85 | looking before each layer ends in the same store with the same result from every point in the downloads |
| Restart.DownloadsResume | nxpk/src/commands/update.rs:66-85 | the downloads of a resumable release, stopped after any effect and started over, end in the same store, go through if they would have, and can be stopped again |
| Restart.SameAnswersResumable | nxpk/src/commands/update.rs:66-85 | a release is resumable when layers with one digest can all be had or none of them, as when each digest is listed at one place |
| Restart.BoundaryResumes | nxpk/src/commands/update.rs:56-116 | a resumable update stopped between any two effects and run again reaches the state and the success or failure of an uninterrupted run |
| Restart.OtherwiseGoesOn | nxpk/src/commands/update.rs:56-116 | an update that is not resumable, run again after it failed, changes the store |
| Restart.UpdateKeepsImages | nxpk/src/commands/update.rs:66-85 | an update never rewrites a stored image |
| Restart.TornImageStays | nexpack-core/src/store.rs:59-73 | stopped inside an image write, the cut image is taken for the whole one, stays, and the final state differs, for every feed |
| Restart.TornMetaStays | nxpk/src/commands/update.rs:115-116 | stopped inside the metadata write, every later update fails to parse it and changes nothing |
| Restart.RestartReachesSameStateIff | nxpk/src/commands/update.rs:56-116 | running an update again reaches the uninterrupted state, in all layers, links, roots and metadata, from exactly the stops that are not inside a file write, if and only if the update is resumable |
| Restart.ManyStopsResumeIff | nxpk/src/commands/update.rs:56-116 | after any number of runs, each stopped between two effects or complete, the last one reaches the state and the success or failure of an uninterrupted run, for all such histories if and only if the update is resumable |
| RestartExamples.TwoSourcesDiverge | nxpk/src/commands/update.rs:66-85 | for every hash there is a feed that lists a digest at two places with which an update fails, succeeds when run again, and ends elsewhere |
| RestartExamples.TornImageExample | nexpack-core/src/store.rs:59-73 | an update stopped when the image file is created but empty leaves the empty image for good |
| RestartExamples.TornMetaExample | nxpk/src/commands/update.rs:115-116 | an update stopped when the metadata file is truncated leaves an app whose every later update fails |
| Restart.CurrentAlwaysStored | nxpk/src/commands/update.rs:93-103 | at every stop, inside a write or not, `current` names a layer that has an image, if it did before |
| Interrupted.CollectionAfterStopIff | nxpk/src/commands/update.rs:93-103 | a collection after a stop anywhere keeps the image that `current` names, except between the switch of the link and that of its root: there it does if and only if a root that is still in place names it |
| Interrupted.CollectionLosesCurrent | nxpk/src/commands/update.rs:93-103 | from a consistent store, an update stopped right after the rename of the link and then a collection leave a `current` whose image is gone |
| Lifecycle.Install | nxpk/src/commands/install.rs:4-35 | the store and the result of an install |
| Lifecycle.StoreForMount | nexpackd/src/main.rs:320-333 | the store and the result of the storing part of a mount |
| Lifecycle.MountDelivers | nexpackd/src/main.rs:320-333 | the storing part of a mount goes through if and only if the bundle parses and its layers verify, with the first failure otherwise; then every layer is stored under the hash of its image and nothing else is touched |
| Lifecycle.StoreLayersKeeps | nxpk/src/commands/install.rs:10-29 | the layer loop stores only images that hash to their name, keeps every image, and on success has all layers stored |
| Lifecycle.StoresOnlyItsLayers | nxpk/src/commands/install.rs:10-29 | the loop makes no directory for anything but the bundle's layers |
| Lifecycle.InstallKeepsInvIff | nxpk/src/commands/install.rs:10-35 | an install keeps the invariant if and only if the file does not parse or the bundle has a layer |
| Lifecycle.InstallDelivers | nxpk/src/commands/install.rs:10-35 | after an install every layer is stored under its hash, the metadata parses to the header, `current` and the root name the last layer, and no other app or root changed |
| Lifecycle.InstallSucceedsIff | nxpk/src/commands/install.rs:4-35 | an install succeeds if and only if the bundle parses and every layer it has to store is in the file and hashes to its digest; a failed one changes no app and no root |
| Lifecycle.InstallFailsAtFirst | nxpk/src/commands/install.rs:4-29 | its error is the parser's or that of the first layer to store that does not verify |
| Lifecycle.MountKeepsInv | nexpackd/src/main.rs:323-333 | storing for a mount keeps the invariant, its images being checked beforehand |
| Lifecycle.UpdateKeepsInvIff | nxpk/src/commands/update.rs:66-116 | an update keeps the invariant if and only if the feed asks for no release or for one with a layer |
| Lifecycle.UpdateDelivers | nxpk/src/commands/update.rs:66-116 | after an update all layers of the release are stored under their hashes, the metadata parses to the old header with the release's version, digests and sizes, `current` and the root name its last layer, no other app or root changed, and a second update has nothing to do |
| Lifecycle.RemoveKeepsInv | nexpack-core/src/store.rs:98-107 | removing an app keeps the invariant for the others |
| Lifecycle.GcKeepsInv | nexpack-core/src/store.rs:150-214 | a collection keeps the current image of every installed app, whatever removals fail |
| Lifecycle.RunKeepsInvIff | nexpack-core/src/store.rs:59-214 | over every run of installs, updates, mounts, removes and collections from an empty store: after each of them every image hashes to its directory name and each app's link, root and metadata name one stored digest, if and only if no bundle to install and no release to apply was without layers |
| Lifecycle.LayerlessInstall | nxpk/src/commands/install.rs:31-35 | installing a bundle that is a header without layers succeeds and breaks the invariant |
| Daemon.DaemonState.CommitMount | nexpackd/src/main.rs:344-354 | the entry is created or counted up, and stamped |
| Daemon.DaemonState.HandleUnmount | nexpackd/src/main.rs:377-404 | the table and the reply, with the overlay released or not |
| Daemon.DaemonState.IdleScan | nexpackd/src/main.rs:214-221 | exactly the idle apps |
| Daemon.IdleIff | nexpackd/src/main.rs:214-230 | what the scan lists and the recheck confirms is an app in the table whose balance is 0 and that was neither mounted nor unmounted within the timeout |
| Daemon.DaemonState.IdleRecheck | nexpackd/src/main.rs:223-235 | the app is removed only if it is idle now and its overlay is released |
| Daemon.RefcountIsBalance | nexpackd/src/main.rs:344-404 | in every interleaving each app's refcount is the saturating balance of its own mounts and unmounts |
| Daemon.BalanceIsGreatestSuffix | nexpackd/src/main.rs:386-389 | that balance is the greatest excess of mounts over unmounts among the suffixes of the history, and at least 0 |
| Daemon.LastActivity | nexpackd/src/main.rs:344-388 | no mount or unmount of an app in the table is later than its recorded last activity |
| Daemon.CleanerRemovesOnlyIdle | nexpackd/src/main.rs:209-237 | whenever the cleaner removes an app its balance is 0 and nothing happened to it within the timeout, whatever happened since the scan |
| Daemon.CleanerRemovesIff | nexpackd/src/main.rs:223-235 | a recheck removes the app if and only if its overlay is released, its balance is 0 and nothing happened to it within the timeout, and changes nothing else |
| Daemon.ReplyMeaning | nexpackd/src/main.rs:377-404 | which reply an unmount gets, by the balance and by whether it took the app out of the table |
| Daemon.RootfsIsOfFirstMount | nexpackd/src/main.rs:344-354 | the directory recorded for an app is that of the mount that put it into the table, however often it was mounted since |
| Daemon.ZeroMeansFailedUnmount | nexpackd/src/main.rs:386-397 | an entry with refcount 0 is left only by an unmount that failed and was the last thing to happen to its app |
| Daemon.NothingForTheCleaner | nexpackd/src/main.rs:209-237 | when every client unmount releases its overlay, an app is in the table if and only if its balance is positive, and the cleaner changes nothing |

## Left out

- StubIo.WriteAll: a write that transfers nothing is not modelled, since the source's loop does not progress on it.
- Export.InstallThenExport: asks that the hash have no collision among the stored images and the bundle's layers.
- Header.ParseEncoded: parsing and encoding are functions on values; the source's push loop and builder setters, which copy the fields one by one, are not modelled as steps.
- Links and aliases between extracted paths: files are keyed by the path string.
- Reserving memory for a declared entry count before reading the entries.
- Cap'n Proto's own limits and its errors on text that is not UTF-8.
- Crash points of `install` and torn writes outside an update.
- Unmounting of a layer directory before a collection removes it.
- The background updater of the daemon, which stores downloads without checking them.
- Mounting itself: a table entry does not say that an overlay is mounted.
- Poisoning of the daemon's lock and overflow of the 64-bit refcount.
- Socket handling, process start, desktop entries, SBOM generation, Sigstore verification, TOML and command-line parsing, permission defaults, bubblewrap arguments, AppImage conversion and size formatting.
- The rest of the test-bundle script, which writes the older `NX01` magic.

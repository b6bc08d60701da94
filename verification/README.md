# FATBLOB: the container, the reconstruct law, and the programs around it

A *canonical image* is a native ELF followed by a *blob* that carries every
architecture's native. A running image splits itself at the blob, takes another
architecture's native out of it, and puts the same blob behind that native. This
project models the blob's byte format, compression, splitting and reconstruction,
the build that assembles images, the self-check, and the deployment of an image to
other hosts over a connection that may lose commands and corrupt uploads. It proves
that reconstruction is byte-exact from any head, through any chain of hops, on
32-bit and 64-bit hosts; that hosts deploying to each other over bad connections end up
with exactly the files the build wrote, or with a reported failure; and exactly where
the code falls short of its comments.

## How it is organised

- `Bytes`, `Seqs`, `Outcome`, `Hashes`: bytes, Go's `int` of width 32 or 64 and its
  `uint64`, little-endian fields, slices of sequences, results, digests.
- `Layout`: the bytes of a blob as a `Frame` (40-byte index entries and a payload
  region), with layout and parsing inverse to each other in both directions.
- `Format`: `Encode` and `Decode` as functions, and as the loops of the source proved
  equal to them (`EncodeLoop`, `DecodeLoop`, wrapping arithmetic included).
- `FormatLaws`, `NormalForm`: round trip, injectivity, prefix-freedom, tiling, exact
  fixed points, hosts of different widths.
- `Compression`, `RunLength`: per-slice compression over any encoder and decoder, and
  a concrete codec that meets the assumptions.
- `SelfImage`: splitting, reconstruction, absorption, chains of hops, the law through
  compression.
- `SelfCheck`, `FatBuild`, `FatBuildLaws`, `FatBuildExact`, `ArchDetect`: the shipped
  program's self-check and inventory, the assembler - what it guarantees, and exactly when
  it succeeds and what it leaves - and the architecture table.
- `Shell`, `Paths`, `RemoteHost`: quoting against a model of the POSIX.1-2017 shell's
  word reading, where the paths of a deployment lead, and what the remote login shell
  does with the five command lines.
- `Teleport`, `TeleportLaws`, `TeleportLimits`, `UnsafeDestinations`: one deployment
  command by command, what its reported success is worth and what it may touch - exactly,
  over every disk - and the destinations for which it goes wrong.
- `Fleet`: any number of hosts deploying to each other.
- `EndToEnd`: the assembler's output directory and the disks of a fleet, joined.

Code that changes things step by step is a method proved equal to a specification
function: the codec loops, the slice table that `CompressBlobLoop` fills in place, the
output directory (`OutDir`), the remote host (`Remote`). The laws are about those functions.

The xz encoder and decoder are parameters. Where a result depends on them, the only
assumptions are that a stream decodes to what was encoded and is not empty (`Lawful`);
`RunLength.Codec` shows they can be met. SHA-256 and MD5 are parameters; where it
matters, a hypothesis says that nothing else has the digest of the one string in
question (`Separates`), and for MD5 that digests are hexadecimal. A Go panic for a
size that does not fit `int` is the outcome `SizeOverflow`.

## Where the code and its documentation differ

- `docs/architecture.md` still draws the retired layout with 32-byte entries; the model
  follows `fatblob/format.go`.
- `cmdVerify` is described as checking that the blob re-encodes to the attached bytes;
  the code compares lengths. `SelfCheck.RoundTripReport` gives the exact condition
  under which the bytes do round-trip, `SelfCheck.RoundTripReportCanBeWrong` 66 bytes
  with which every program they are appended to is reported as round-tripping, and does not.
- `cmdVerify` reports success for any failure to reconstruct the current architecture,
  not only for a reserved slot: `SelfCheck.VerifyOnBuilt` is the whole decision table,
  `SelfCheck.CorruptSlicePasses` a present but undecodable slice that passes.
- On a 32-bit host `Decode` drops the high halves of offsets and lengths, and so accepts
  byte strings that a 64-bit host rejects: `NormalForm.WidthIndependence` says exactly
  which, `NormalForm.NarrowHostAcceptsMore` gives one.
- `Deploy` quotes the remote path for mkdir, upload and chmod but not for md5sum, so a
  destination can add words, redirections and whole commands to that line.
  `Paths.Md5AgreesExactlyWhenSafe` says for which destinations the shell reads the
  uploaded file's own path. Where the line is words and redirections,
  `TeleportLimits.SuccessRightExactly` says exactly when every reported success is right
  and `TeleportLimits.OnlyTargetExactly` exactly when nothing but the target file can
  change. `UnsafeDestinations.UnsafeDestinationMisleads` shows the first fail for every
  `~user` and `~user/...`, `UnsafeDestinations.RedirectOverwrites` the second for every
  `>path`. For destinations such as `*`, `; rm x` and `a; md5sum b` the line expands a
  pattern or runs further commands; there nothing is promised
  (`UnsafeDestinations.UnreadLinePromisesNothing`).
- `Decode` checks the trailer's length against the data's and every range against the
  payload. A 32-bit reader can still accept a proper prefix of a container whose payload
  has 2^32 bytes or more: `FormatLaws.PrefixDecodesExactly` says which, and
  `FormatLaws.NarrowReaderAcceptsPrefix` gives them for every remainder it can hold.

## Model

| member | source | states |
|---|---|---|
| Layout.ParseOfFormat | fatblob/format.go:4-17 | laying out any frame the format can express and parsing it gives the frame back, field by field |
| Layout.FormatOfParse | fatblob/format.go:145-185 | no byte of a byte string that passes the header, trailer and index checks is lost: it is the layout of what it parses to |
| Format.EncodeLoop | fatblob/format.go:90-142 | the three passes over a growing buffer, with sizes in wrapping `int` arithmetic, compute the specified encoding or error; the internal length check never fires; a size that does not fit `int` always panics |
| Format.MeasurePayload | fatblob/format.go:97-106 | the wrapped running sum is the wrapped total, and the first offending slice decides the error |
| Format.AppendIndex | fatblob/format.go:113-126 | the index loop appends the entries of all slices in order, each with the accumulated `uint64` offset |
| Format.RangeCheck | fatblob/format.go:181-183 | after wrapping, the three comparisons accept exactly the truncated ranges inside the payload region, with the right bounds; at width 64 exactly offset + length <= size over the naturals |
| Format.DecodeEntry | fatblob/format.go:173-190 | one round accepts and copies exactly the specified range, and its slice expression is in bounds whenever it is reached |
| Format.DecodeLoop | fatblob/format.go:145-193 | the decode loop is the specified decoding at either width, for every byte string whose length fits `int` |
| FormatLaws.EntriesTilePayload | fatblob/format.go:97-134 | in the bytes of any encoding the entries are ordered, contiguous and cover the payload region exactly, each range holds its slice's data, and the trailer is the total length |
| Bytes.LEAt | fatblob/format.go:4 | byte `i` of a field is its `i`-th base-256 digit, least significant first |
| FormatLaws.EncodedBytes | fatblob/format.go:4-17 | an encoding starts with `FATBLOB\x02` and the count and ends with its length and `FATBLOBZ`, and every field of every entry stands at the documented position with the documented value |
| FormatLaws.EncodeRefuses | fatblob/format.go:90-107 | each error of Encode occurs exactly when documented: too many slices, then the first slice with a long name or unknown codec, then a size that does not fit |
| FormatLaws.DecodeRefuses | fatblob/format.go:145-185 | each of the seven errors of Decode occurs exactly for the byte strings that pass the checks before it and fail its own; `FATBLOB\x01` is the old version |
| FormatLaws.DecodedBytes | fatblob/format.go:173-190 | every field of an accepted blob comes from the documented bytes, also where no encoder wrote them |
| FormatLaws.OffsetExact | fatblob/format.go:114-125 | the accumulated offset is the prefix sum of the lengths at every iteration |
| FormatLaws.EncodeAccepts | fatblob/format.go:91-107 | Encode succeeds if and only if count, names and codecs are in range and the size fits `int` |
| FormatLaws.DecodeOfEncode | fatblob/format.go:90-193 | what a host of one width encodes, a host of any width that can hold it decodes to the same blob, names cut at their first NUL |
| FormatLaws.RoundTrip | fatblob/format.go:90-193 | decoding an encoding gives the same blob if and only if no name contains a NUL |
| FormatLaws.EncodeInjective | fatblob/format.go:90-142 | blobs with NUL-free names never share an encoding |
| FormatLaws.ProperPrefixRejected | fatblob/format.go:155-185 | no proper prefix of an encoding decodes, even when payload bytes forge a matching trailer at the cut, on any reader, 32-bit or 64-bit, unless the payload has 2^32 bytes or more and the reader is 32-bit |
| FormatLaws.PrefixDecodesExactly | fatblob/format.go:155-185 | a reader accepts a proper prefix if and only if payload bytes forge a trailer at the cut and every truncated range fits the payload that is left |
| FormatLaws.NarrowReaderAcceptsPrefix | fatblob/format.go:181-183 | a 64-bit encoding with a slice of 2^32 + r bytes has a proper prefix that a 32-bit reader accepts and a 64-bit one rejects |
| FormatLaws.EncodePrefixFree | fatblob/format.go:90-142 | one encoding is a prefix of another only when the blobs are equal |
| FormatLaws.TrimOfPad | fatblob/format.go:116-118 | padding a name to 8 bytes loses nothing that trimming would keep |
| FormatLaws.PadOfTrim | fatblob/format.go:203-210 | trimming and padding again restores a name field exactly when it is zero after its first NUL |
| NormalForm.ReencodeFixedPoint | fatblob/format.go:145-193 | re-encoding an accepted byte string reproduces it if and only if names are clean, reserved bytes zero, codecs known, offsets prefix sums and lengths exhaust the payload |
| NormalForm.NormalFormStable | fatblob/format.go:145-193 | despite gaps, overlaps and dirty padding, one decode and encode reaches a form that decodes to the same blob and is canonical |
| NormalForm.WidthIndependence | fatblob/format.go:171-191 | on data both can hold, a 64-bit host accepts exactly what a 32-bit host accepts with all fields below 2^32, and then both decode the same blob |
| NormalForm.NarrowHostAcceptsMore | fatblob/format.go:181-183 | 66 concrete bytes accepted at width 32 and rejected at width 64 |
| Compression.CompressBlobLoop | fatblob/compress.go:91-115 | filling the slice table in place computes the specified blob, or the error of the first slice that fails |
| Compression.CompressionLossless | fatblob/compress.go:91-115 | count, order, names and status survive, and every embedded native comes back from its stored bytes under its recorded length |
| Compression.CompressionNeverGrows | fatblob/compress.go:26-36 | for any encoder whatever, the encoded blob is never larger, and smaller exactly when some slice took xz |
| Compression.CompressExactly | fatblob/compress.go:26-36 | for any encoder, CompressBlob succeeds if and only if every native has codec 0 and the encoder accepts it; each native is then stored as its stream exactly when that is shorter, under its own length, and every other slot unchanged |
| Compression.CompressRefuses | fatblob/compress.go:93-106 | the error is that of the first slice refused: already compressed, or the encoder failed |
| RunLength.CodecIsLawful | fatblob/codec.go:20-43 | a concrete codec meets everything assumed of xz |
| RunLength.BothCodecsOccur | fatblob/compress.go:26-36 | with it, long runs are stored as streams and short inputs verbatim |
| SelfImage.BuildCanonicalBuffer | fatblob/selfimage.go:27-36 | appending native and encoding to an empty buffer computes the specified image |
| SelfImage.SplitOfBuild | fatblob/selfimage.go:27-58 | building then splitting gives back the native and the blob, for every native - also one holding magics, trailers or a whole image - on every host that can hold the image |
| SelfImage.SplitRefuses | fatblob/selfimage.go:40-58 | what SplitCanonical answers to any byte string, by its length, its last 16 bytes, and what Decode says of the tail |
| SelfImage.SplitRejoins | fatblob/selfimage.go:40-58 | the native and the blob's bytes of any accepted image are that image cut in two |
| SelfImage.PrefixOnlyExtendsNative | fatblob/selfimage.go:40-58 | bytes put in front of any accepted image only lengthen its native; the blob is the same |
| SelfImage.PeelOfNest | fatblob/selfimage.go:27-58 | images nested to any depth come apart one layer at a time |
| SelfImage.ReconstructIsCanonical | fatblob/selfimage.go:60-89 | reconstruction depends on the blob alone: the host's own native and width play no part, except that the result must fit `int` |
| SelfImage.NativeExactly | fatblob/selfimage.go:69-85 | for any blob and decoder, the first slice with the name decides: a native comes out only if it is present and holds an ELF, verbatim or in a stream of exactly the recorded length; each error has its exact cause |
| SelfImage.ReconstructExactly | fatblob/selfimage.go:60-89 | an accepted image reconstructs if and only if its blob yields such a native and the result fits, and the result is that native followed by the blob |
| SelfImage.ReconstructAbsorbs | fatblob/selfimage.go:60-89 | from any accepted image, a reconstructed image gives the same outcome for every further target as the image it came from |
| SelfImage.ReconstructOnNarrowHost | fatblob/selfimage.go:40-89 | given an image a 64-bit host accepts, a 32-bit host splits it identically and reconstructs the same bytes, or the result does not fit its `int` |
| SelfImage.TravelIsCanonical | fatblob/selfimage.go:60-89 | after any chain of hops over hosts of any widths the bytes are canonical(last target) of the first blob |
| SelfImage.FindIsFirst | fatblob/selfimage.go:69-72 | the slice used for a target is the first with its name, and none is used only when no slice has it |
| SelfImage.SampleReconstructs | fatblob/selfimage.go:60-89 | the hypotheses of the law can be met: a concrete blob reconstructs from any head |
| SelfImage.NativeThroughCompression | fatblob/selfimage.go:69-85 | the compressed blob gives each target exactly the native, or the refusal, of the raw blob |
| SelfImage.ReconstructLaw | fatblob/selfimage.go:60-89 | from any bytes in front of the compressed blob, a target yields its raw native followed by that blob, or fails exactly when the raw blob has no such slice, a reserved or empty one, or no ELF |
| SelfCheck.VerifyExact | cmd/go-teleport-self/main.go:149-178 | "image is canonical" is reported if and only if rebuilding the image for the current architecture gives the same bytes |
| SelfCheck.VerifyRefuses | cmd/go-teleport-self/main.go:149-176 | for every image, exactly which step makes the self-check fail, and when it falls back to the blob-only report |
| SelfCheck.VerifySound | cmd/go-teleport-self/main.go:154-172 | a canonical image is the decompressed slice of the current architecture followed by the encoding of its blob |
| SelfCheck.VerifyComplete | cmd/go-teleport-self/main.go:180-188 | whatever Reconstruct emits on a host of one width, and so extract writes, passes the self-check of its own architecture on every host of any width that can hold it |
| SelfCheck.VerifyOnBuilt | cmd/go-teleport-self/main.go:149-178 | the outcome on every built image, decided by the blob's slice for the current architecture; a rebuilt image too large for `int` is the panic, not a success |
| SelfCheck.CorruptSlicePasses | cmd/go-teleport-self/main.go:173-176 | for every decoder that refuses the stream, an image whose current slice is present but does not decode is reported as a success |
| SelfCheck.RoundTripReport | cmd/go-teleport-self/main.go:159-165 | the round-trip report establishes equal lengths; the bytes round-trip if and only if the attached blob is canonical |
| SelfCheck.LengthCheckExact | cmd/go-teleport-self/main.go:159-165 | the length comparison passes exactly when the slices' lengths add up to the payload region |
| SelfCheck.RoundTripReportCanBeWrong | cmd/go-teleport-self/main.go:159-176 | a program with these 66 bytes behind it is reported as round-tripping on every host and architecture, and does not round-trip |
| SelfCheck.Inventory | cmd/go-teleport-self/main.go:46-62 | the loop lists every slice in order with its stored size and status, and the SHA-256 of its stored bytes exactly when it is present and not empty |
| SelfCheck.InventoryForetells | cmd/go-teleport-self/main.go:52-60 | reconstruction reports a target missing or reserved exactly when the inventory omits it or lists it as absent |
| FatBuild.ReadSlices | internal/fatbuild/fatbuild.go:144-164 | the reading loop computes the specified slices, or stops at the first unreadable native |
| FatBuild.WriteImages | internal/fatbuild/fatbuild.go:187-210 | the writing loop leaves exactly the specified files and records, also when it stops early |
| FatBuild.Assemble | internal/fatbuild/fatbuild.go:139-221 | the result, the files left behind and the manifest are the specified ones, on success and on every error |
| FatBuildExact.AssembleOutcome | internal/fatbuild/fatbuild.go:135-221 | from the input directory alone: an unreadable native, then an encoder failure, then a size that does not fit is the error, and otherwise the build succeeds - also when natives are missing |
| FatBuildExact.BuildLeaves | internal/fatbuild/fatbuild.go:166-210 | a finished build leaves `go-teleport-self.<arch>` for exactly the five buildable arches with a non-empty native, that native followed by the blob, no other file changed, and a version-2 manifest with the blob's computed size and a record per slot |
| FatBuildExact.FailedBuildLeaves | internal/fatbuild/fatbuild.go:139-199 | a failed build leaves the output directory as it was, or, when an image does not fit, with exactly the images before the first such one |
| FatBuildExact.FullBuild | internal/fatbuild/fatbuild.go:144-164 | with all five natives the blob has five present slices and the reserved riscv32 slot, in the fixed order |
| FatBuildLaws.SlicesFollowOrder | internal/fatbuild/fatbuild.go:144-164 | the slices are a subsequence of the fixed order, each the slot its architecture contributes |
| FatBuildLaws.EmitAllWrites | internal/fatbuild/fatbuild.go:187-199 | every embedded slice has its image under its name and no other file of the directory changed |
| FatBuildLaws.EmitAllRecords | internal/fatbuild/fatbuild.go:187-210 | the manifest has one record per slice, and each record of an image gives the size and digests of the file on disk |
| FatBuildLaws.ImagesShareOneBlob | internal/fatbuild/fatbuild.go:166-185 | every emitted image is its native followed by one blob, whose size and digest the manifest records |
| FatBuildLaws.AssembleDecides | internal/fatbuild/fatbuild.go:135-221 | from any emitted image, on a host of any width that can hold it, a target reconstructs if and only if an image was emitted for it, its native is an ELF and the host can hold that image, and the result is that very file |
| FatBuildLaws.EmittedIsCanonical | internal/fatbuild/fatbuild.go:166-199 | one blob is behind all emitted images, it gives a native to exactly the reconstructible targets, and their images are its canonical images |
| FatBuildLaws.FixedOrderIsFit | fatblob/format.go:212-217 | the fixed order has distinct NUL-free names of at most 8 bytes |
| ArchDetect.RowsDisjoint | archdetect/archdetect.go:33-50 | no string is an id or alias of two rows, and the rows stand in the order of the blob |
| ArchDetect.SearchOrderIrrelevant | archdetect/archdetect.go:54-67 | the first-match search gives the same answer for every order of the rows |
| ArchDetect.LookupExactly | archdetect/archdetect.go:81-88 | Lookup finds exactly the six ids, each its own row, and all but riscv32 are supported |
| ArchDetect.FromUnameExactly | archdetect/archdetect.go:54-67 | after trimming and lowering, the answer is the id of the row that lists the name, or none |
| ArchDetect.FromUnameIgnoresSpaceAndCase | archdetect/archdetect.go:54-56 | surrounding white space and letter case, of any alphabet, never change the answer |
| ArchDetect.LoweringExact | archdetect/archdetect.go:54-56 | lowering with all of Unicode gives the same answer as the model, which lowers only the code points whose lower case is ASCII |
| ArchDetect.FromUnameIdempotent | archdetect/archdetect.go:54-67 | a result fed back is its own result, and is one of the blob's architectures |
| Shell.QuoteRoundTrip | teleport/teleport.go:99-101 | the shell reads a quoted string as one operand, the string itself, exactly when it has no NUL; with one, no command line can carry it |
| Shell.TildeQuoteRoundTrip | teleport/teleport.go:89-97 | a NUL-free path quoted with its tilde left bare is one operand: inside the home directory for a leading `~/` or a lone `~`, otherwise the literal path |
| Shell.BareRoundTrip | teleport/teleport.go:67 | an unquoted path is read as itself exactly when every character is ordinary and it starts no comment, within the lexer's fragment |
| Paths.PathAgreement | teleport/teleport.go:55-65 | for every non-empty destination, mkdir names a directory, and the upload and chmod the same file directly inside it |
| Paths.RemotePathExactly | teleport/teleport.go:55 | however many slashes a destination ends in, the remote path has one slash and the program's name behind it |
| Paths.PathAgreementExact | teleport/teleport.go:55-65 | those paths agree for exactly the non-empty, NUL-free destinations |
| Paths.Md5AgreesExactlyWhenSafe | teleport/teleport.go:67 | within the lexer's fragment, md5sum's argument is read as the path of the uploaded file, under every home directory, exactly for shell-safe destinations |
| Paths.DefaultDestinationIsSafe | cmd/go-teleport-self/main.go:222 | the program's own destination is shell-safe |
| Teleport.Remote.Put | teleport/teleport.go:138-141 | the upload replaces exactly the file that the quoted path means with whatever bytes arrived, or fails as `cat >` there fails or as the connection does |
| Teleport.Deploy | teleport/teleport.go:38-77 | command by command, the result and the remote disk are the specified ones, whichever commands fail |
| TeleportLaws.DeployOutcome | teleport/teleport.go:38-50 | a deployment rebuilds the image for the arch that FromUname gives and installs that; it refuses before touching anything exactly when no answer comes, the answer is unknown, or the rebuild fails |
| TeleportLaws.InstallOutcome | teleport/teleport.go:55-74 | each error of an install occurs exactly when its stage is the first to fail |
| TeleportLaws.DeployedIsInstall | teleport/teleport.go:38-77 | a successful receipt names the machine's own arch and gives the digest, path and size of the image rebuilt for it |
| TeleportLaws.Md5Answer | teleport/teleport.go:67-74 | the field Deploy reads equals a digest exactly when the first file md5sum looked at has that digest and its name needed no escape |
| TeleportLaws.InstallSound | teleport/teleport.go:55-76 | where the first file md5sum is given is the uploaded one, a reported success means that it holds exactly the bytes sent and is executable, and no other file changed, whatever happened to the upload |
| TeleportLimits.SuccessCanMislead | teleport/teleport.go:67-74 | where the first word md5sum is given is another file, and files can lie at its operands, there are a disk and a connection on which any bytes at all are installed and success is reported |
| TeleportLimits.SuccessRightExactly | teleport/teleport.go:55-76 | every reported success on every disk is right if and only if the md5sum line redirects its output, or its first file is the uploaded one, or no disk can hold files at its operands |
| TeleportLimits.OnlyTargetExactly | teleport/teleport.go:55-76 | on every disk and connection only the target file can change, if and only if the md5sum line redirects nowhere else on any disk or mkdir or chmod refuses the destination |
| TeleportLaws.InstallTouchesOnly | teleport/teleport.go:55-76 | success or failure, only the target file can change, where the md5sum line is words only or the destination has a NUL |
| TeleportLaws.InstallCompletes | teleport/teleport.go:55-76 | over a faultless connection to a disk that admits the file, with a shell-safe name that md5sum need not escape, success is reported |
| TeleportLaws.HexDigestsExist | teleport/teleport.go:52-53 | the assumptions about digests can be met |
| UnsafeDestinations.UnsafeDestinationMisleads | teleport/teleport.go:67-74 | for every destination `~user` or `~user/...` of ordinary characters there is a disk on which any bytes that arrive are reported as a success |
| UnsafeDestinations.RedirectOverwrites | teleport/teleport.go:67 | for every destination `>path` with a relative path of ordinary characters another file can be overwritten |
| UnsafeDestinations.UnreadLinePromisesNothing | teleport/teleport.go:67-74 | where the md5sum line is outside the modelled fragment, any disk at all can be left behind a reported success |
| UnsafeDestinations.UnreadLines | teleport/teleport.go:67 | `*`, `; rm x` and `a; md5sum b` are such destinations |
| Fleet.StepKeepsGood | teleport/teleport.go:38-77 | one deployment by any program that carries the blob, however it ends, keeps every successfully installed host holding the canonical image of the arch that FromUname gives for it |
| Fleet.RunKeepsGood | teleport/teleport.go:38-77 | the same after any sequence of deployments between any hosts over connections that lose and corrupt |
| Fleet.VouchedRunCarries | fatblob/selfimage.go:60-89 | in a run whose every step starts from an image built from the blob or from what an earlier step installed, every source carries the blob, so nothing is assumed about later sources |
| Fleet.OriginIsGood | fatblob/selfimage.go:17-24 | one machine holding its own canonical image is a fleet the safety result starts from |
| Fleet.PathIndependence | fatblob/selfimage.go:60-63 | hosts of one architecture hold the same bytes after any two runs from the same blob |
| Fleet.GoodHostDeploys | teleport/teleport.go:38-77 | so is every installed host, when everything else is in place |
| Fleet.CarrierDeploys | teleport/teleport.go:38-77 | any program that carries the blob is a source: over a faultless connection to a disk that admits the file its deployment succeeds |
| Fleet.RunDelivers | teleport/teleport.go:38-77 | after a run of steps that each had everything in place, every destination is installed |
| EndToEnd.FleetHoldsBuild | cmd/go-teleport-self/main.go:199-235 | after any run of deployments started from images of a finished build, every host whose latest deployment reported success holds byte for byte the file `go-teleport-self.<arch>` of the build, for the arch that FromUname gives for it |

## Left out

- The xz format, and the choice between the system encoder and the pure-Go one: one abstract encoder and decoder stand for them.
- Allocation limits, such as the `rawLen + 1` capacity hint in `Decompress`, which can panic or exhaust memory: buffers are unbounded up to the host's `int`.
- `BuildNative`, `BuildAll`, `GitDescribe` and the reproducibility of the Go toolchain: external processes.
- `ReadSelf`, flag parsing, usage text, `cmdInfo`, `cmdList`, host-name guessing and the printed texts: no decision depends on them. `cmdExtract` is `Reconstruct` followed by a file write, covered by `SelfCheck.VerifyComplete`.
- Errors of `MkdirAll` and `WriteFile` in `Assemble`, and the JSON form of the manifest: writes succeed, the manifest is a record.
- Error message texts: errors are kinds.
- The `emulation` packages and `cmd/qemu-user-run`: they start emulators.
- The ELF machine numbers and GOARM of the table, and `Current`: the current architecture is a parameter of the self-check.
- Shell constructs other than words, quotes, escapes, `>` and tilde prefixes, and operands of md5sum that start with a dash: what a host does with such a line is a parameter of the model, so nothing is assumed about it.
- Shell.BareRoundTrip: a pattern character that a shell happens to read as itself, such as an unmatched `[`, counts as outside the fragment; so does a brace, which some login shells expand and others do not.
- Paths.Md5AgreesExactlyWhenSafe: the same; a destination with an unmatched `[` counts as unsafe though a shell may read it as itself.
- An mkdir operand that starts with a dash counts as refused, also `--help`, which prints a text and changes nothing.
- md5sum versions that escape a carriage return in a file name: a backslash and a newline are escaped.
- Symbolic links, `.` and `..`, permissions and a partly made directory after a failing mkdir on the remote disk: a path is the list of its names.
- Fleet.RunKeepsGood: destinations are shell-safe and every source carries the blob, because a host left with a damaged file runs something else, and for other destinations a reported success can be wrong.

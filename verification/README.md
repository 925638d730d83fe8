# Verification of the muon launcher and builder

Dafny models of the logic behind muon's launcher and build tools, with proofs of what that
logic is for.  `dafny verify dfyconfig.toml` checks everything.

## What is modelled

The modules follow the program's parts.  Code that moves cursors, fills buffers or updates
records is imperative Dafny, proved against functions; what the code promises is then
proved about those functions.

**Embedded configuration** (`Tlv`, `TlvReader`, `EmbeddedConfig`, `Policies`).  The launcher reads a
tagged binary object from a fixed slot whose unused end is random.  `Tlv` defines value
trees, their encoding and a reference parser that is exactly the inverse of the encoding.
`TlvReader.Reader` is the C cursor; skipping a value succeeds if and only if an encoded
value, nested at most 64 deep, is there.  `EmbeddedConfig` proves that the getters for the
policy, the app id and the class id find in the bytes what a lookup in the tree finds,
whatever the padding is, and says by positions what each lookup finds.

**Hashes** (`HashStream`, `Sha1`, `Sha1Stream`, `Sha256`).  The unrolled SHA-1 with rotated
registers and a 16-word circular schedule, and the SHA-256 loop, compute the compression
functions of FIPS 180-4; the buffering contexts give the one-shot digest for any sequence of
chunks.  `Sha1Stream.CountIsExact` says for which chunks the two-word SHA-1 counter is right.

**Release selection** (`Decimal`, `SemVer`, `NodeCatalog`, `JsonValue`, `CefPolicy`).
Parsing and comparing Node.js versions is section 11 of Semantic Versioning 2.0.0, equality
meaning identical texts, and is also said by first differing places, with that section's own
chain as an instance; the artifact chosen is the greatest matching one and does not depend on
the catalog's order.  CEF versions are ordered by their digit runs modulo 2^64 and
then bytewise; the latest policies choose a newest usable candidate among those the catalog
lists, which is said of the JSON members and the version texts.

**Printers and their readers** (`CommandLine`, `Desktop`, `DesktopReading`, `Ini`, `IniMeaning`,
`TextLines`, `Text`).
Windows command lines are read back after the backslash and quote rules of
`CommandLineToArgvW` (a run of three quotes gives one and closes).  The later arguments
survive if and only if the program name has no quote; `CommandLine.ArgumentsSurviveExactly`
states it and `CommandLine.QuotedNameAddsAnArgument` is an instance.  Desktop entries are read back
after the Desktop Entry Specification, sections "Possible value types" and "The Exec key", and
the ownership test reads in them what they were made from.
The INI reader edits its buffer in place and is proved against a fold over lines; `IniMeaning`
says by the places of the lines what any file means, and `Ini.RoundTrip` is an exact condition.

**Protocols** (`Lock`, `PrepareInputs`).  `Lock` is a state machine of processes over one
lock directory, with failures and crashes at every step.  Mutual exclusion holds in every
run in which no waiter takes away a live process's directory 30 seconds old without having
read the owner's name from it.  `Lock.ExclusionNeedsTimely` has two paths that break this in
a single step, one by a failing read and one by a slow owner, and end with two holders.
`PrepareInputs` has the two preparation tasks as small steps over one options record, one
step for each access, and proves every interleaving equal to the serial order.  It also
follows update requests over whole sequences of runs: `PrepareInputs.RequestSurvives` says
exactly how long a request stays pending, `PrepareInputs.PendingUntilFulfilled` when that is
until a successful run fulfils it, and `PrepareRun.PrepareRepeatedly` finds the same history
on a disk.  For a single run, `PrepareInputs.RunClearsExactly` says when it clears a request;
a run that fails after it has replaced the configuration is among them, and
`PrepareInputs.LateFailureLosesRequest` is one.

**Installation** (`FileSystem`, `NodeRuntime`, `Install`, `PrepareRun`).  `FileSystem.Disk`
remembers every state it passed through; each operation may fail and the process may stop
after any of them, so a property of all remembered states is a property of every crash.
`NodeRuntime` is the swap of the Node.js runtime with rollback.  `Install` is the whole
in-place installation: wherever it stops, a ready marker vouches only for what is there,
unless a CEF input brings a marker of its own.
`PrepareRun` puts the INI file, the preparation of inputs and the installation together on
one disk: what one run saves is what the next one reads, so the disk follows the sequences
of `PrepareInputs` under any number of runs stopped anywhere.

**Trees** (`SortedNames`, `RelativePath`, `Fingerprint`, `Staging`, `StagingFingerprint`,
`Gitignore`).  The recursive fingerprint of `builder/src/common.c` decides trees up to an
explicit collision.  A staged copy keeps the staging fingerprint of `builder/src/prepare.c`,
which joins paths, kinds, names and digests without lengths: it decides the unskipped trees up
to a collision unless some directory has a name and that name followed by ":directory".
`StagingFingerprint.MarkedNamesConfuse` shows that every name with ":directory" in it, and
every hash, has two different trees with one fingerprint; `StagingFingerprint.NoHashTellsApart`
is an instance.  The hash is a parameter; for the staging fingerprint its digests are 64
hexadecimal characters.

**Allow patterns** (`FunctionPaths`).  The regular expression that the Android build derives
from a glob is read back as a regular expression and accepts exactly the glob's paths.

## Assumptions of the models

- Bytes stand for their characters, so bytewise order is the order of character codes;
  `CommandLine` works on the 16-bit units of Windows texts.
  Texts are C strings without a zero character, except that the ready marker, the INI file
  and `.gitignore` are files of any characters read up to the first zero.
- What the file system, the network, the clock and other processes answer is a parameter or
  a free choice in every step.
- `Lock`: a waiter's reading and removing of a stale directory is one step, and process ids
  are not reused.
- `PrepareInputs`: both orders get the same answers from outside.
- `Install`: a fingerprint determines the CEF input or the Node.js archive it stands for, and
  whether there is one.  The temporary directory an archive is unpacked to has a name that
  neither the runtime directory nor the input uses; the program makes it from its process id
  and the time.  "In place" is said of every CEF file except at the paths written after it:
  the marker, the configuration with its temporary file, `runtimes/node` and the two temporary
  siblings of that.  What is said of the marker while an installation lasts is said of CEF
  inputs that do not have, at the marker's path, a text beginning with a ready marker;
  `Install.HarmlessExactly` shows that nothing less will do, and
  `Install.ForgedMarkerDeceives` is an instance.
- `PrepareRun`: what is said of the configuration is said of CEF inputs that do not bring a
  configuration file of their own.
- `Staging`: names contain no separators, and the destination is empty.

## Model

| member | source | states |
|---|---|---|
| Tlv.VarUintExact | builder/src/launcher_config.c:118-137 | the reference decoder accepts a text of bytes exactly when it starts with the canonical variable-length encoding of a number below 2^64, and leaves exactly what follows it |
| Tlv.CountedExact | ui/cef/embed-config.ts:160-170 | a counted byte string is accepted exactly when it is an encoded length followed by that many bytes |
| Tlv.ParseExact | builder/src/launcher_config.c:210-241 | parsing succeeds with a value and a rest exactly when the value is encodable, nested within the budget, and the bytes are its encoding followed by the rest |
| Tlv.EncodingIsPrefixFree | ui/cef/embed-config.ts:233-281 | two encodings followed by anything are equal only for the same value and the same rest: padding after a value cannot change it |
| Tlv.DepthBounds | builder/src/launcher_config.c:220-236 | nesting within a budget, as the descent checks it, is a bound on the tree's depth |
| TlvReader.ReadGroupsParse | builder/src/launcher_config.c:118-137 | the low-group-first accumulation with shifts computes what the reference decoder defines from the last group down |
| TlvReader.Accumulate | builder/src/launcher_config.c:125-131 | adding a 7-bit group at its weight loses no bit in 64 bits, up to the tenth group |
| TlvReader.Reader.ReadByte | builder/src/launcher_config.c:118-124 | reads the next byte and moves past exactly it |
| TlvReader.Reader.ReadVarUint | builder/src/launcher_config.c:118-137 | fails or reads exactly as the reference decoder says, leaving the cursor at its rest |
| TlvReader.Reader.ReadSizedCount | builder/src/launcher_config.c:142-158 | a count is rejected exactly when it exceeds the remaining bytes divided by the smallest item size |
| TlvReader.Reader.ReadCountedBytes | builder/src/launcher_config.c:160-173 | reads a counted byte string exactly when one is there, within bounds |
| TlvReader.Reader.SkipArray | builder/src/launcher_config.c:181-193 | skipping the items of an array succeeds exactly when the reference parser reads them; the early size test rejects no real encoding |
| TlvReader.Reader.SkipObject | builder/src/launcher_config.c:195-208 | skipping the members of an object succeeds exactly when the reference parser reads them |
| TlvReader.Reader.SkipValueWithDepth | builder/src/launcher_config.c:210-241 | at any depth, skipping succeeds exactly when the remaining bytes start with a value nested within what the limit of 64 leaves, and ends after it; the mutual recursion terminates |
| TlvReader.Reader.SkipValue | builder/src/launcher_config.c:243-245 | skipping succeeds if and only if the remaining bytes are the encoding of some value nested at most 64 deep followed by anything, and advances by exactly that encoding |
| EmbeddedConfig.ScanLauncherRefines | builder/src/launcher_config.c:304-365 | scanning the encoded members of a launcher object, whatever follows, gives what the tree lookup gives, and stands after the object when the key is missing |
| EmbeddedConfig.ScanRootRefines | builder/src/launcher_config.c:517-609 | scanning the encoded root members gives what the tree lookup of the policy or the app id gives |
| EmbeddedConfig.ScanForRefines | builder/src/launcher_config.c:611-642 | searching one level for a key gives the first match of the tree, positioned at its encoding |
| EmbeddedConfig.ScanPathRefines | builder/src/launcher_config.c:611-642 | following a path of keys through encoded objects gives what following it through the tree gives |
| EmbeddedConfig.EncodedSlotIsNotEmpty | builder/src/launcher_config.c:104-116 | a slot that holds an encoded root object is never taken for an empty one |
| EmbeddedConfig.LookupsRefineTree | builder/src/launcher_config.c:517-642 | for a slot holding an encoded root object followed by any padding, the policy, app id and class id lookups on the bytes equal the lookups in the tree |
| EmbeddedConfig.LauncherFindsFirst | builder/src/launcher_config.c:304-365 | within a launcher object the value found is that of the first member with the key, provided it is acceptable and everything before it can be skipped |
| EmbeddedConfig.RootFindsFirst | builder/src/launcher_config.c:517-609 | at the root the search goes on past launcher objects that lack the key; it finds a text exactly when some launcher member decides it or everything is passed over and it is the default, and reports absence exactly when everything is passed over without a default |
| EmbeddedConfig.LauncherRejects | builder/src/launcher_config.c:304-365 | a launcher object is rejected exactly for a malformed member before any with the key, or for an unacceptable first member with the key |
| EmbeddedConfig.RootRejects | builder/src/launcher_config.c:517-609 | the policy and app id lookups fail exactly for a malformed root member, a launcher that is no object or a rejected launcher object, reached before a launcher object has the key |
| EmbeddedConfig.FirstMatchMeans | builder/src/launcher_config.c:611-630 | a level's search ends at position j exactly when the member there has the key and every earlier one has another key without a zero byte and nests within 64; it misses exactly when no member has the key and all can be passed, and breaks exactly at a position that spoils it |
| EmbeddedConfig.ClsidMeans | builder/src/launcher_config.c:611-642 | the class id is found exactly when three positions hold the three keys, each the first of its level, with an object, an object and a non-empty text without a zero byte; absence and failure are located by positions alike |
| EmbeddedConfig.SlotIsEmptyScan | builder/src/launcher_config.c:104-116 | true exactly for the marker followed by zero bytes |
| EmbeddedConfig.ReadRawKey | builder/src/launcher_config.c:247-259 | reads a counted key and rejects one that contains a zero byte |
| EmbeddedConfig.ReadObjectValueCount | builder/src/launcher_config.c:269-275 | reads an object header whose count the remaining bytes can hold |
| EmbeddedConfig.ReadStringValue | builder/src/launcher_config.c:285-302 | reads a text value and rejects one that contains a zero byte |
| EmbeddedConfig.ReadLauncherString | builder/src/launcher_config.c:304-365 | finds the key's value in the members of a launcher object, or stands after them |
| EmbeddedConfig.GetEmbeddedString | builder/src/launcher_config.c:517-609 | the policy and app id getters return what the byte-level scan of the slot defines |
| EmbeddedConfig.FindKey | builder/src/launcher_config.c:611-630 | one level of the class id search stops at the first member with the key, after passing every earlier one |
| EmbeddedConfig.ReadAlongPath | builder/src/launcher_config.c:611-642 | the class id search follows its path, failing at a level without an object |
| EmbeddedConfig.GetEmbeddedClsid | builder/src/launcher_config.c:611-642 | the class id getter returns what the byte-level scan of the slot defines |
| Sha1.SwapIsBigEndian | builder/src/sha1.c:40-47 | swapping bytes by two rotations and two masks turns a little-endian load into the big-endian word |
| Sha1.FastChoiceAgrees | builder/src/sha1.c:57-62 | the rewritten choice function equals Ch of FIPS 180-4 for all words |
| Sha1.FastMajorityAgrees | builder/src/sha1.c:66-68 | the rewritten majority function equals Maj of FIPS 180-4 for all words |
| Sha1.Blk0 | builder/src/sha1.c:40-47 | loading word i in place gives word i of the standard schedule |
| Sha1.Blk | builder/src/sha1.c:48-52 | the 16-word circular buffer holds the last sixteen words of the 80-word schedule after each step |
| Sha1.R0 | builder/src/sha1.c:57-59 | round macro R0 with renamed registers is one step of the standard's shifting loop |
| Sha1.R1 | builder/src/sha1.c:60-62 | round macro R1 with renamed registers is one step of the standard's shifting loop |
| Sha1.R2 | builder/src/sha1.c:63-65 | round macro R2 with renamed registers is one step of the standard's shifting loop |
| Sha1.R3 | builder/src/sha1.c:66-68 | round macro R3 with renamed registers is one step of the standard's shifting loop |
| Sha1.R4 | builder/src/sha1.c:69-71 | round macro R4 with renamed registers is one step of the standard's shifting loop |
| Sha1.ChoiceRounds | builder/src/sha1.c:101-120 | the first twenty unrolled rounds reach the standard's state and schedule after 20 steps |
| Sha1.FirstParityRounds | builder/src/sha1.c:121-140 | the next twenty reach them after 40 steps |
| Sha1.MajorityRounds | builder/src/sha1.c:141-160 | the next twenty reach them after 60 steps |
| Sha1.LastParityRounds | builder/src/sha1.c:161-180 | the last twenty reach them after 80 steps |
| Sha1.Transform | builder/src/sha1.c:78-189 | for every state and block, the unrolled rotated-register rounds over the in-place circular buffer are the compression of section 6.1.2 of FIPS 180-4 |
| HashStream.ZeroCountIsLeast | builder/src/sha1.c:238-242 | the filler is the least number of zero bytes that completes a block, as section 5.1.1 of FIPS 180-4 asks |
| HashStream.FeedShort | deps/sha2/sha2.c:166-201 | data that does not complete a block only lengthens the pending tail |
| HashStream.FeedToBlock | deps/sha2/sha2.c:166-201 | data that completes the pending block costs one compression and empties the tail |
| HashStream.NextBlock | deps/sha2/sha2.c:166-201 | each further whole block of the data costs one compression |
| HashStream.LastPart | deps/sha2/sha2.c:166-201 | what is left after the last whole block is the new tail |
| Sha1Stream.CountIsExact | builder/src/sha1.c:208-211 | the two-word bit counter is the true bit count modulo 2^64 after a chunk if and only if the chunk is under 2^29 bytes or its bits carry out of the low word |
| Sha1Stream.LargeChunkIsLost | builder/src/sha1.c:208-211 | a chunk of 2^29 bytes on a fresh counter is not counted at all |
| Sha1Stream.Context.constructor | builder/src/sha1.c:191-200 | a new context has absorbed nothing |
| Sha1Stream.Context.Update | builder/src/sha1.c:202-224 | the context's state and buffer stand for the message so far followed by the chunk, and an exact counter stays exact if and only if the chunk is under 2^29 bytes or the low word carries |
| Sha1Stream.Context.AbsorbBlocks | builder/src/sha1.c:212-222 | whole blocks of the chunk are compressed in order, one at a time |
| Sha1Stream.Context.Pad | builder/src/sha1.c:233-242 | feeding 0x80, single zero bytes and the counter appends exactly the standard's filler and the counted length; the byte-at-a-time loop terminates |
| Sha1Stream.Context.Final | builder/src/sha1.c:226-250 | the digest of the whole message with the counted length, which is the one-shot digest whenever the counter is exact |
| Sha1Stream.HashChunks | builder/src/common.c:1318-1367 | hashing a message in any sequence of chunks gives the digest of the whole |
| Sha256.ExpandSchedule | deps/sha2/sha2.c:89-108 | the expanded array is the 64-word schedule of section 6.2.2 of FIPS 180-4 |
| Sha256.Transform | deps/sha2/sha2.c:89-154 | the loop over eight registers is the compression of section 6.2.2 of FIPS 180-4 |
| Sha256.LengthBytesWrap | deps/sha2/sha2.c:166-230 | the length field of a counter that wraps at 2^64 is the length field of the true bit count, so the counter needs no bound |
| Sha256.Context.constructor | deps/sha2/sha2.c:156-164 | a new context has absorbed nothing |
| Sha256.Context.Update | deps/sha2/sha2.c:166-201 | the context stands for the message so far followed by the data, for data of any length |
| Sha256.Context.FinishBlocks | deps/sha2/sha2.c:203-222 | closing in one block, or in two when more than 55 bytes are pending, absorbs exactly the standard's padding |
| Sha256.Context.Final | deps/sha2/sha2.c:203-230 | the digest is the one-shot digest of the whole message |
| Sha256.HashChunks | builder/src/common.c:1379-1425 | hashing a message in any sequence of chunks gives the digest of the whole |
| Decimal.ValueOfNumeral | builder/src/prepare_node.c:114-134 | the printed form of a number is a canonical numeral with that value |
| Decimal.NumeralOfValue | builder/src/prepare_node.c:114-134 | a canonical numeral is the printed form of its value |
| Decimal.NumeralOrder | builder/src/prepare_node.c:221-253 | shorter first, then bytewise, on numerals without leading zeros is the order of the unbounded integers |
| SemVer.CompareIdentifierIsPrecedence | builder/src/prepare_node.c:221-253 | the comparison of identifiers is that of section 11.4 of Semantic Versioning 2.0.0: numbers by value, numbers before texts, texts bytewise |
| SemVer.ComparePrerelease | builder/src/prepare_node.c:255-299 | the loop over two prereleases computes their precedence, a release being greater than any prerelease |
| SemVer.CompareVersions | builder/src/prepare_node.c:301-313 | the comparison is the precedence of section 11 of Semantic Versioning 2.0.0, negative exactly for the version that is below at the first differing place, and zero exactly for equal versions |
| SemVer.PrecedenceMeans | builder/src/prepare_node.c:301-313 | one version precedes another exactly when it is smaller at the first difference of major, minor and patch, or these agree and it is a prerelease of a release or has the smaller identifier at the first difference, or fewer identifiers |
| SemVer.EarlierPlaceDecides | builder/src/prepare_node.c:301-313 | read as texts, 20.19.0 precedes 22.1.0 and 20.1.9 precedes 20.2.0 |
| SemVer.PrereleaseChain | builder/src/prepare_node.c:255-299 | read as texts, the prereleases of section 11.4 of Semantic Versioning 2.0.0 precede each other in its order |
| SemVer.ReleaseChain | builder/src/prepare_node.c:301-313 | a release follows its prereleases, and 1.0.0, 2.0.0, 2.1.0 and 2.1.1 precede each other, as section 11 has it |
| SemVer.IdentifiersOfJoin | builder/src/prepare_node.c:149-174 | valid identifiers joined by dots are accepted as a prerelease and taken apart into the same identifiers |
| SemVer.PrecedenceAntisymmetric | builder/src/prepare_node.c:301-313 | exchanging the versions negates the comparison |
| SemVer.PrecedenceTransitive | builder/src/prepare_node.c:301-313 | the comparison is transitive |
| SemVer.PrecedenceZero | builder/src/prepare_node.c:301-313 | zero exactly for equal parsed versions |
| SemVer.JoinIdentifiers | builder/src/prepare_node.c:149-174 | a prerelease is determined by its identifiers |
| SemVer.ParseExact | builder/src/prepare_node.c:176-219 | a text is accepted as a version exactly when it is the printed form of that well-formed version |
| SemVer.EqualOnlyIfIdentical | builder/src/prepare_node.c:176-219 | two accepted texts compare equal exactly when they are identical |
| SemVer.ParseNumber | builder/src/prepare_node.c:114-134 | reads a number without leading zeros below 2^64 exactly when one is there |
| SemVer.IsNumericScan | builder/src/prepare_node.c:136-147 | true exactly for a non-empty run of digits |
| SemVer.ValidatePrerelease | builder/src/prepare_node.c:149-174 | the single pass accepts exactly the dot-separated lists of valid identifiers |
| SemVer.ParseVersion | builder/src/prepare_node.c:176-219 | the cursor-moving parser accepts and yields exactly what the grammar does |
| NodeCatalog.VersionSatisfiesRequirement | builder/src/prepare_node.c:342-383 | met exactly when every comparator of some set is readable and holds |
| NodeCatalog.ComparatorExact | builder/src/prepare_node.c:315-340 | a comparator text is read exactly when it is one of five signs followed by a printed version |
| NodeCatalog.SatisfiesMeans | builder/src/prepare_node.c:315-340 | what each sign asks of a version, by the places of the two versions |
| NodeCatalog.GetSingleValue | builder/src/prepare_node.c:92-112 | gives a member's value exactly when the object has one member of that name |
| NodeCatalog.SingleMeans | builder/src/prepare_node.c:92-112 | the value is that at the only position with the name |
| NodeCatalog.ValidateCatalogFiles | builder/src/prepare_node.c:827-855 | accepts exactly arrays of non-empty texts and tells whether the target's file is among them |
| NodeCatalog.ReadCatalogEntry | builder/src/prepare_node.c:857-912 | accepts an entry exactly when its fields are valid and its version was not seen before, and gives its release |
| NodeCatalog.UpdateReleaseSelection | builder/src/prepare_node.c:802-825 | keeps the greater version, the older selection on a tie |
| NodeCatalog.CandidateMeans | builder/src/prepare_node.c:857-912 | an entry is a candidate exactly when its only members of the names version, files and lts make a release that has the target's file, meets the requirement and, when asked, has a non-empty text as its support name |
| NodeCatalog.ResolveNodeArtifact | builder/src/prepare_node.c:958-1030 | a valid catalog gives the greatest matching LTS release of the target, else with a range the greatest matching release, else nothing; its major, minor and patch are the highest at the first difference; an invalid catalog gives nothing |
| NodeCatalog.OutcomeIsHighest | builder/src/prepare_node.c:802-825 | every candidate of the kind that is chosen from is the chosen release or smaller at the first difference of major, minor and patch |
| NodeCatalog.GreatestUnique | builder/src/prepare_node.c:802-825 | in a valid catalog there is one greatest release |
| NodeCatalog.OutcomeUnique | builder/src/prepare_node.c:991-1022 | a catalog has one outcome |
| NodeCatalog.OutcomeIgnoresOrder | builder/src/prepare_node.c:991-1022 | success, failure and the chosen release are the same for every permutation of the catalog |
| CommandLine.ArgumentsSurvive | builder/src/common.c:2081-2096 | when the program name has no quote, reading the built line gives every later argument unchanged, whatever it contains |
| CommandLine.ArgumentsSurviveExactly | builder/src/common.c:2081-2096 | the later arguments are read back unchanged if and only if the program name has no quote |
| CommandLine.RoundTrip | builder/src/common.c:2081-2121 | the whole argument vector is read back if and only if the program name has no quote and does not end in a backslash |
| CommandLine.QuotedNameAddsAnArgument | builder/src/common.c:2098-2121 | a program name consisting of a quote makes an argument appear from nothing |
| CommandLine.ArgumentsKeep | builder/src/common.c:2081-2096 | reading loses no character other than a blank, quoted or not |
| CommandLine.AppendCharacter | builder/src/common.c:2069-2079 | appends or counts one unit, failing exactly at 32766 |
| CommandLine.AppendArgument | builder/src/common.c:2081-2096 | appends or counts exactly the quoted form of the argument, failing exactly when it does not fit |
| CommandLine.AppendAll | builder/src/common.c:2106-2113 | both passes go through the same text: one counts what the other writes |
| CommandLine.BuildCommandLine | builder/src/common.c:2098-2121 | gives the quoted line exactly when there is a program name and the line needs at most 32766 units |
| Lock.OwnerRoundTrip | builder/src/common.c:2331-2383 | a process id written to the owner file is read back, and an empty file names nobody |
| Lock.OwnerExact | builder/src/common.c:2353-2383 | an owner file names a process exactly when it is blanks, perhaps a plus sign, digits of a positive int and blanks |
| Lock.LockDirectory.TryReclaimStaleLock | builder/src/common.c:2426-2455 | removes the directory exactly when the process read from it is dead, or no process can be read from it for 30 seconds and it has an owner file or nothing else; fails when its age or listing cannot be read, and otherwise leaves it |
| Lock.StaleExactly | builder/src/common.c:2426-2455 | any directory is removed exactly when it names a dead process, or names nobody, was changed 30 seconds ago or before, and has an owner file or nothing in it; reclaiming fails exactly when its age or listing is needed and cannot be read |
| Lock.NamedOwnerDecides | builder/src/common.c:2426-2440 | a directory that is read to name a process is stale exactly when that process is dead, however old it is |
| Lock.LiveOwnerIsKept | builder/src/common.c:2426-2455 | a live owner's directory is judged stale exactly when the waiter reads no owner from it and finds it 30 seconds old |
| Lock.OthersKeepOff | builder/src/common.c:2457-2507 | only the owner changes an owned directory, as long as no waiter finds it 30 seconds old without reading its owner |
| Lock.NextInv | builder/src/common.c:2457-2507 | every step keeps: a live process past its mkdir finds the directory as it left it, and there is at most one |
| Lock.RunInv | builder/src/common.c:2457-2507 | the invariant holds in every state of every run |
| Lock.MutualExclusion | builder/src/common.c:2457-2507 | in every timely run at most one live process is between acquire and release |
| Lock.LiveLockStays | builder/src/common.c:2426-2507 | in every run a lock held by a live process stays as it is until that process leaves or crashes |
| Lock.CrashIsReclaimable | builder/src/common.c:2457-2507 | a crash at any point of acquiring or releasing leaves a directory that is judged stale once 30 seconds have passed, even when its owner file cannot be read |
| Lock.WaiterGetsStaleLock | builder/src/common.c:2457-2491 | from a directory it judges stale a waiter reaches holding the lock by its own steps, of which exactly the first takes the directory away |
| Lock.UnreadableOwnerIsRobbed | builder/src/common.c:2426-2455 | from any state with a lock held for 30 seconds, a waiter whose read of the owner file fails takes the directory away and, by its own steps, holds the lock as well |
| Lock.SlowOwnerIsRobbed | builder/src/common.c:2426-2491 | from any state in which a live process has not written its id 30 seconds after its mkdir, a waiter whose reads all succeed takes the directory away and holds the lock by its own steps, and when the slow one goes on by its own steps both hold it |
| Lock.ExclusionNeedsTimely | builder/src/common.c:2426-2491 | the condition on runs is needed: a path from the start that is untimely in one step only, a removal by a waiter whose one failing read is that of the owner file, or a slow owner and no failing read at all, ends with two live holders |
| SortedNames.SortNames | builder/src/common.c:1489-1508 | the sorted names depend only on the set of names, not on the order they were listed in |
| SortedNames.OrderedInjective | builder/src/common.c:1489-1508 | two directories with the same sorted names have the same names |
| Fingerprint.RecordInjective | builder/src/common.c:1445-1449 | a string behind its length determines the string and what follows |
| Fingerprint.HexInjective | builder/src/common.c:1388-1395 | the hexadecimal text determines the digest |
| Fingerprint.StreamsDecide | builder/src/common.c:1510-1564 | equal byte streams come from equal trees, or two different streams hashed on the way have one digest |
| Fingerprint.EqualFingerprints | builder/src/common.c:1510-1564 | equal fingerprints mean equal trees in names, permission bits, contents and sizes of other nodes, or an explicit collision |
| Fingerprint.FingerprintPath | builder/src/common.c:1510-1564 | the computed fingerprint is that of the tree, for every order in which directories list their names |
| PrepareInputs.DueMeans | builder/src/prepare.c:725-740 | a refresh is due exactly when the catalog is missing, forced, requested, or the interval is not zero and the last update is unknown, in the future, or the interval or more ago |
| PrepareInputs.DueOverTime | builder/src/prepare.c:725-740 | an unprompted refresh is not due at the moment of an update, is due exactly from the interval after it, and stays due; with interval zero it never is |
| PrepareInputs.CatalogLeftAlone | builder/src/prepare.c:861-882 | an input that is no archive and the tested policy, unprompted, never touch the catalog |
| PrepareInputs.OthersUseCatalog | builder/src/prepare.c:861-882 | any other policy uses an archive's catalog and finds it due exactly when it is missing, prompted or its time has come |
| PrepareInputs.OnlyExactNeedsCatalog | builder/src/prepare.c:861-882 | only under the exact policy does the result depend on the catalog, and then a due refresh has to work |
| PrepareInputs.NodeNeeds | builder/src/prepare.c:802-842 | a required runtime needs a due refresh, the release and its archive to work; one that is not required needs nothing |
| PrepareInputs.PrepareOptions.EnsureCefCatalogCache | builder/src/prepare.c:742-767 | refreshes when due, stamps the options exactly when updated, and tolerates a failure only with a usable catalog |
| PrepareInputs.PrepareOptions.PrepareCefArchiveInput | builder/src/prepare.c:861-882 | outcome, result and stamp of the CEF task as functions of the options and the answers of the outside |
| PrepareInputs.PrepareOptions.EnsureNodeArchiveCache | builder/src/prepare.c:802-842 | outcome, result and stamp of the Node.js task as functions of the options and the answers of the outside |
| PrepareInputs.PrepareOptions.PrepareRuntimeArchiveInputs | builder/src/prepare.c:901-959 | the serial order yields the combined options, outcomes and result |
| PrepareInputs.CefIgnoresNodeStamp | builder/src/prepare.c:742-767 | no access of the CEF task depends on the Node.js stamp or changes anything but its own stamp |
| PrepareInputs.NodeIgnoresCefStamp | builder/src/prepare.c:802-842 | no access of the Node.js task depends on the CEF stamp or changes anything but its own stamp |
| PrepareInputs.StepsCommute | builder/src/prepare.c:901-959 | any step of one task and any step of the other can be exchanged |
| PrepareInputs.Sorted | builder/src/prepare.c:901-959 | any interleaving equals all CEF steps followed by all Node.js steps |
| PrepareInputs.CefStepKeepsEnding | builder/src/prepare.c:861-882 | each access of the CEF preparation keeps how that preparation will end |
| PrepareInputs.NodeStepKeepsEnding | builder/src/prepare.c:802-842 | each access of the Node.js preparation keeps how that preparation will end |
| PrepareInputs.EnoughTurns | builder/src/prepare.c:901-950 | both tasks finish under every schedule that gives them eleven and eight turns |
| PrepareInputs.AnyScheduleIsSerial | builder/src/prepare.c:901-959 | under every interleaving of the tasks' reads and writes the options, outcomes and result are those of the serial order |
| PrepareInputs.RequestStep | builder/src/prepare.c:884-899 | a pending request is cleared, with its moment, by exactly the runs whose inputs succeed, that replace the configuration and that updated every applicable catalog, at least one; until then each check finds its catalog due |
| PrepareInputs.RunClearsExactly | builder/src/prepare.c:1657-1664 | a successful run clears a pending request if and only if it updated every catalog it uses; a run that fails or is stopped clears it if and only if it did so and had replaced the configuration |
| PrepareInputs.LateFailureLosesRequest | builder/src/prepare.c:1661-1664 | a concrete run whose last write fails reports failure and has cleared the request |
| PrepareInputs.SatisfiedIsFresh | builder/src/prepare.c:725-740 | after a run that satisfied the request, an unforced run finds a catalog that exists due exactly when it is used and, in plain numbers, the interval has passed since the update or the clock is before it |
| PrepareInputs.RequestSurvives | builder/src/prepare.c:657-690 | over every sequence of runs and requests, a request stays pending exactly as long as no run satisfies it, and every catalog checked meanwhile is due |
| PrepareInputs.PendingUntilFulfilled | builder/src/prepare.c:884-899 | a request still pending was fulfilled by no successful run; and if no run ends between replacing the configuration and its own end, it stays pending exactly until one fulfils it |
| FileSystem.Disk.WriteTextFile | builder/src/common.c:1143-1164 | while a file is written it is untouched or holds a beginning of the content; success leaves the whole content |
| FileSystem.Disk.RemoveRecursive | builder/src/common.c:1064-1111 | removal touches nothing outside the directory, never changes a file, and on success leaves nothing below it |
| FileSystem.Disk.RenameDirectory | builder/src/common.c:2545-2564 | a rename moves the whole directory or changes nothing |
| FileSystem.Disk.WriteAll | builder/src/common.c:1778-1872 | unpacking touches nothing outside its destination and on success has written the entries in order |
| FileSystem.Disk.CopyTree | builder/src/common.c:926-1021 | while a directory is copied each file is untouched or holds a beginning of the source's; success leaves the old files with the source's over them |
| FileSystem.MovedArrives | builder/src/common.c:2545-2551 | after a rename the target holds exactly what the source held, and the source nothing |
| FileSystem.OverlayBelow | builder/src/prepare_node.c:1441-1536 | unpacking below an empty directory puts exactly the archive's tree there |
| NodeRuntime.ExchangeRuntimes | builder/src/prepare_node.c:1574-1593 | the exchange of two directories with rollback, at every point with the old or the new runtime whole; a failure leaves the old one at the root unless the rename that restores it failed too |
| NodeRuntime.ReplaceNodeRuntimeAtomically | builder/src/prepare_node.c:1574-1604 | at every point before the commit the old runtime is whole at the root or in the backup, from the commit on the new one is at the root; success means the new one is there, failure that the old one is at the root, or whole in the backup exactly when restoring it failed |
| NodeRuntime.InstallNodeRuntime | builder/src/prepare_node.c:1606-1711 | installing touches only the runtime and its two temporary siblings; at every point the old runtime is whole at the root or in the backup, or exactly the archive's files are at the root; success means the latter, failure the former, in the backup exactly when restoring failed |
| Install.CopyPieces | builder/src/prepare.c:961-1006 | Release and then Resources are copied, or the whole input when it has neither: while it lasts each file is untouched or a beginning of a piece's file, and success leaves the old files with the pieces over them |
| Install.PayloadMeans | builder/src/prepare.c:961-1006 | when anything lies below Release or Resources, exactly those files arrive, without that part of their path and with Resources winning; otherwise everything arrives as it is |
| Install.ExtractArchive | builder/src/prepare.c:470-536 | unpacking to a temporary directory, copying from it and removing it: outside temporary names each file is untouched or a beginning of a piece's file throughout, and success leaves exactly the old files with the pieces over them |
| Install.SaveLauncherConfig | builder/src/launcher_config.c:966-982 | saving touches only the configuration and its temporary file; the configuration is the old one or the new text at every point, the new one exactly on success |
| Install.InstallInputs | builder/src/prepare.c:1621-1656 | with no marker in place, bringing the CEF input and installing or removing the Node.js runtime creates none and leaves the configuration alone unless the input has one, and changes no other file except to a beginning of what the input has for it; success means both are in place |
| Install.PrepareRuntimeInPlace | builder/src/prepare.c:1581-1674 | wherever an installation of an input without a marker of its own stops or fails, a ready marker that vouched only for files in place still does, and a new marker appears only after the new configuration is saved; the configuration is the old one or the new one unless the input brings one; every other file is untouched or a beginning of what the input has for it; a cache hit is taken exactly without force and with a matching marker and touches nothing but the configuration; for every input success leaves the new configuration, the marker and everything it says in place |
| Install.PrepareAndStop | builder/src/prepare.c:1581-1674 | over any number of installations, each stopped after any operation, a marker keeps vouching truly as long as no input brings one |
| Install.ReadyDecides | builder/src/prepare.c:1440-1460 | a ready marker determines both fingerprints, and no marker is the beginning of another |
| Install.WritingIsVouchedExactly | builder/src/prepare.c:1610-1664 | on a disk without a marker, a text can be written at the marker's path and stopped anywhere if and only if every marker that begins it is true of the disk |
| Install.HarmlessExactly | builder/src/prepare.c:1617-1636 | a file of a CEF input at the marker's path does no harm on any disk if and only if no marker is a beginning of its text |
| Install.ForgedMarkerDeceives | builder/src/prepare.c:1617-1636 | a concrete CEF input that brings a marker for another input leaves an empty disk vouching for files that are missing |
| PrepareRun.SavedIsRead | builder/src/prepare.c:571-690 | the configuration a run saves is valid and is read back by the next run as exactly the options the run left |
| PrepareRun.AfterRunMeans | builder/src/prepare.c:571-690 | a run that fails or stops before saving leaves the configuration; any other gives each refreshed catalog its own time, drops the request exactly when every catalog in use was refreshed, and keeps the rest, all said of the configuration's fields and the answers of the outside |
| PrepareRun.PrepareInPlace | builder/src/prepare.c:2041-2059 | one whole run on a disk: the configuration afterwards is what the event of the run makes of the one before and at every point one of the two, unless the CEF input brings one; the run succeeds exactly when the event does, and then the installation is marked and in place; a true marker stays true throughout unless the input brings one |
| PrepareRun.PrepareRepeatedly | builder/src/prepare.c:2041-2059 | any number of runs on one disk, each stopped anywhere: unless an input brings a configuration, the options read from the disk follow the history of the runs and a request stays on the disk until a run satisfies it; unless an input brings a marker, every marker passed vouches truly |
| Desktop.StringBuilder.constructor | builder/src/muon_launcher.c:253-257 | a new builder holds the empty text |
| Desktop.StringBuilder.Reserve | builder/src/muon_launcher.c:264-288 | makes room for the text, the addition and the terminator exactly when their size fits, keeping the text |
| Desktop.StringBuilder.Append | builder/src/muon_launcher.c:290-310 | appends exactly when the terminated text still fits, and always leaves a terminated text within the capacity |
| Desktop.StringBuilder.Take | builder/src/muon_launcher.c:312-321 | hands over the text and leaves an empty builder |
| Desktop.EscapeDesktopString | builder/src/muon_launcher.c:371-393 | gives the escaped text exactly when it fits |
| Desktop.QuoteExecArgument | builder/src/muon_launcher.c:395-423 | gives the quoted and escaped argument exactly when it fits |
| Desktop.EscapeRoundTrip | builder/src/muon_launcher.c:371-393 | undoing the escapes of the section 'Possible value types' gives back every text, including line ends and backslashes |
| Desktop.EscapeInjective | builder/src/muon_launcher.c:371-393 | different texts are escaped differently |
| Desktop.ReadSpelled | builder/src/muon_launcher.c:395-423 | undoing the quoting of the section 'The Exec key' gives back the argument, with percent signs doubled when field codes count |
| Desktop.ExpandSpelled | builder/src/muon_launcher.c:395-423 | expanding doubled percent signs gives back the argument |
| Desktop.CreateDesktopExecCommand | builder/src/muon_launcher.c:425-442 | gives the command, or nothing exactly when the quoted launcher does not fit |
| Desktop.ExecRoundTrip | builder/src/muon_launcher.c:425-442 | for every launcher path, undoing escapes, quoting and field codes gives the path and its argument, with /usr/bin/env in front exactly when the path contains a percent sign |
| Desktop.NotificationExecRoundTrip | builder/src/muon_launcher.c:913-932 | the D-Bus service's command, which has no field codes, gives back the path and its argument |
| Desktop.AppendDesktopEntryKeyValue | builder/src/muon_launcher.c:444-459 | appends one escaped key line, failing only when the entry cannot fit |
| Desktop.CreateDesktopCategories | builder/src/muon_launcher.c:461-476 | joins the escaped categories, each with its semicolon, exactly when they fit |
| Desktop.CreateDesktopEntryContent | builder/src/muon_launcher.c:478-537 | gives the entry's lines in order, optional ones exactly when present, or nothing exactly when they do not fit |
| Desktop.EntryHasValue | builder/src/muon_launcher.c:885-911 | the scan with its two flags answers by the last line of the key within the group |
| Desktop.OwnershipIsDecided | builder/src/muon_launcher.c:885-911 | on a generated entry the test for X-muon-Launcher and X-muon-AppId is true exactly for the written value, in the entry's own group and with notifications enabled, for all inputs |
| DesktopReading.HasValueMeans | builder/src/muon_launcher.c:885-911 | the test is true exactly when the last line of the key, among the lines whose last group line before them opens the group, has the escaped value |
| DesktopReading.EntryReadsBack | builder/src/muon_launcher.c:478-537 | in a generated entry the test finds exactly the name, comment, launcher, icon and window class the entry was made from, and the command is that of the Exec line |
| Text.TrimIs | builder/src/launcher_config.c:44-54 | trimming gives a text without outer blanks made of the original's characters, and keeps exactly such texts |
| Text.TrimMeans | builder/src/launcher_config.c:44-54 | what trimming gives lies in the text between blanks and has none at its ends |
| Ini.TrimInPlace | builder/src/launcher_config.c:44-54 | trimming edits the buffer in place: the trimmed text stands at the returned place and nothing outside the original text changes |
| Ini.ParseUint64Text | builder/src/launcher_config.c:68-85 | accepts exactly the non-empty digit strings whose value is at most 2^64-1, with that value |
| Ini.LauncherConfig.ApplyEntry | builder/src/launcher_config.c:743-785 | each known key of its section sets its field, or fails on a bad value; other keys change nothing |
| Ini.SectionInPlace | builder/src/launcher_config.c:844-847 | a section line sets the section to its trimmed name cut to 31 characters |
| Ini.KeyInPlace | builder/src/launcher_config.c:849-858 | a key line is split at its first equals sign, both sides trimmed in place, and applied |
| Ini.LineInPlace | builder/src/launcher_config.c:839-858 | one line edited in place has exactly the effect the line's text defines and touches nothing outside it |
| Ini.ReadContent | builder/src/launcher_config.c:828-873 | reading a buffer in place gives what folding over the lines of its text gives |
| Ini.ReadWithDefault | builder/src/launcher_config.c:792-873 | a missing file gives the defaults with the embedded policy, one that cannot be read nothing, a readable one what its text up to the first zero says |
| IniMeaning.LineMeans | builder/src/launcher_config.c:839-858 | a line is a heading, or sets one key to one value at its first equals sign, or does nothing |
| IniMeaning.LinesMean | builder/src/launcher_config.c:828-873 | reading fails exactly when some line sets a known key of its section to a bad value; otherwise each key has what its last line in that section says, or its default |
| IniMeaning.ReadMeans | builder/src/launcher_config.c:792-873 | a file is rejected exactly for a bad line, an unknown policy in force, or the exact policy without a version; otherwise the configuration has the policy in force and, for every other key, what its last line says or the default |
| Ini.WriteContent | builder/src/launcher_config.c:875-969 | a valid configuration is written as its lines, an invalid one not at all |
| Ini.NumeralReads | builder/src/launcher_config.c:68-85 | every 64-bit number printed is read back |
| Ini.WrittenLinesApply | builder/src/launcher_config.c:743-873 | reading the written lines restores every field that was written |
| Ini.LinesKeepFromFile | builder/src/launcher_config.c:743-873 | whatever a file holds, an exact version read from it is trimmed and on one line, and fields not set keep their defaults |
| Ini.RoundTrip | builder/src/launcher_config.c:743-982 | a valid configuration is read back from what is written for it, with the same default policy, if and only if its exact version has no line end or outer blank and unset fields are at their defaults |
| Ini.ReadIsStorable | builder/src/launcher_config.c:743-873 | whatever is read is valid and meets the condition under which writing and reading give it back |
| Ini.StoredRoundTrip | builder/src/launcher_config.c:743-982 | such a configuration is read back from the file written for it |
| TextLines.LinesWithEnds | builder/src/launcher_config.c:830-838 | the lines that were written with their line ends are the lines that are read |
| TextLines.LinesMean | builder/src/launcher_config.c:830-838 | splitting loses nothing but whether the last line had its end |
| CefPolicy.ReadVersionNumber | builder/src/prepare_cef.c:513-523 | reads the next run of digits modulo 2^64, zero when there is none |
| CefPolicy.NumbersAreRuns | builder/src/prepare_cef.c:513-545 | reading part by part finds the values of the maximal digit runs, with at most a zero after them |
| CefPolicy.RunsDecide | builder/src/prepare_cef.c:525-545 | a trailing zero never matters: versions are ordered by their maximal digit runs, the shorter list continued with zeros, and then bytewise |
| CefPolicy.PaddedMeans | builder/src/prepare_cef.c:525-545 | one list of numbers comes first exactly when, with zeros continued, it is smaller at the first difference |
| CefPolicy.CompareNumberedVersions | builder/src/prepare_cef.c:525-545 | the two-cursor loop computes the order by numbers and then bytes |
| CefPolicy.VersionOrderLaws | builder/src/prepare_cef.c:525-545 | the order is antisymmetric and transitive, and zero only for identical texts |
| CefPolicy.VersionOrderMeans | builder/src/prepare_cef.c:525-545 | a version comes before another exactly when its digit runs are smaller at the first difference, or agree up to zeros and the text is smaller at its first difference |
| CefPolicy.NumbersCanTie | builder/src/prepare_cef.c:525-545 | different texts can have equal numbers, and then the bytes decide |
| CefPolicy.CompareCandidatesNewestFirst | builder/src/prepare_cef.c:547-563 | newest first by Chromium version, CEF version and modification text |
| CefPolicy.NewestFirstLaws | builder/src/prepare_cef.c:547-563 | a total preorder in which only candidates alike in all three texts tie |
| CefPolicy.SortCandidates | builder/src/prepare_cef.c:632-635 | a permutation of the candidates in newest-first order |
| CefPolicy.CollectPolicyCandidates | builder/src/prepare_cef.c:565-642 | the sorted candidates of the catalog, failing exactly when the catalog is unreadable or a wanted file is malformed |
| CefPolicy.OfferedMembers | builder/src/prepare_cef.c:589-631 | the candidates are exactly those of the wanted files of stable versions, of the same major when asked |
| CefPolicy.MajorMeans | builder/src/prepare_cef.c:604-607 | two versions are of the same major exactly when one text without a dot is each of them or stands before its first dot |
| CefPolicy.CandidatesMean | builder/src/prepare_cef.c:589-631 | the candidates are exactly what the catalog lists: a version whose first channel is the text stable, of the same major when asked, with a file whose first type is the reference's distribution, described by its name, digest, size and time |
| CefPolicy.SpoiltMeans | builder/src/prepare_cef.c:589-631 | nothing is offered exactly when such a file of such a version lacks a name or digest text or a size |
| CefPolicy.NewerMeans | builder/src/prepare_cef.c:547-563 | newer means later by Chromium version, then CEF version, then time text, each at the first difference |
| CefPolicy.EnsureLatestPolicyArchive | builder/src/prepare_cef.c:723-760 | gives a listed candidate that can be cached and matches the API hash and than which no such candidate is newer, and the tested artifact exactly when there is none; listed and newer are said of the JSON members, the version texts and their places |
| CefPolicy.ChosenIsLatest | builder/src/prepare_cef.c:723-760 | what is chosen among the collected candidates is best of all the catalog lists |
| CefPolicy.NewestAgree | builder/src/prepare_cef.c:723-760 | any two such candidates agree in all three texts, whatever order the catalog lists them in |
| Staging.SkippedAre | builder/src/prepare.c:1069-1136 | a root entry is skipped exactly when it is in one of the two lists or is a lock name, whose ends do not overlap |
| Staging.SkipIsRootOnly | builder/src/prepare.c:1138-1150 | the skip rule tested on a path sees only its root entry |
| Staging.CopyFiltersRoot | builder/src/prepare.c:1220-1286 | testing the rule at every level copies what filtering the root entries first would |
| Staging.StreamFiltersRoot | builder/src/prepare.c:1152-1218 | testing the rule at every level hashes what filtering the root entries first would |
| Staging.FingerprintStagingSource | builder/src/prepare.c:1152-1218 | the computed staging fingerprint is that of the tree, for every listing order |
| Staging.CopyStagingSource | builder/src/prepare.c:1220-1286 | the copy into an empty place holds exactly the unskipped files and directories, for every listing order |
| Staging.CopyKeepsStream | builder/src/prepare.c:1152-1286 | at every level the copy of a tree of files and directories has the byte stream of its source |
| Staging.CopyKeepsFingerprint | builder/src/prepare.c:1152-1286 | staging a tree of files and directories into an empty directory keeps its staging fingerprint |
| Staging.OnlyCopyableKeepsStream | builder/src/prepare.c:1220-1286 | a tree whose copy has the same stream holds no unskipped node of another kind, or a node and its copy collide |
| StagingFingerprint.StreamsDecide | builder/src/prepare.c:1152-1218 | equal streams come from trees whose unskipped parts agree in names, kinds and contents, or two different streams or contents hashed on the way have one digest, or some directory has differing names of which one is another followed by the directory mark |
| StagingFingerprint.FingerprintsDecide | builder/src/prepare.c:1152-1218 | equal unskipped trees have equal fingerprints, and only they, up to a collision or such names |
| StagingFingerprint.UnmarkedFingerprintsDecide | builder/src/prepare.c:1152-1218 | without names that hold the mark, or with the same unskipped names, equal fingerprints mean equal unskipped trees or a collision |
| StagingFingerprint.MarkedNamesConfuse | builder/src/prepare.c:1152-1218 | the exclusion is needed: for every hash and every name that holds the mark there are two trees that differ in what is staged, one with a file of that name, and that have the same stream, hence equal fingerprints |
| StagingFingerprint.NoHashTellsApart | builder/src/prepare.c:1152-1218 | the instance: a directory with two entries and one with a single file, written out, whose fingerprints are equal whatever the hash and the contents |
| Gitignore.GitignoreHasEntry | builder/src/prepare.c:330-353 | true exactly when some trimmed line is one of the spellings of the entry |
| Gitignore.SpellingsAre | builder/src/prepare.c:304-322 | the spellings of an entry are its directory with or without a slash before and behind, and for dist-muon everything in it |
| Gitignore.GitignoreFile.AppendGitignoreEntry | builder/src/prepare.c:355-380 | adds the entry on a line of its own, or fails without losing what was there |
| Gitignore.GitignoreFile.EnsureMuonGitignoreEntry | builder/src/prepare.c:382-420 | outside a project or with an unreadable file nothing changes; otherwise adds exactly the entries missing before the first null character, ending an unfinished last line first; a failure loses nothing |
| Gitignore.LinesEnsured | builder/src/prepare.c:382-420 | the old lines stay as they were, followed by the missing entries |
| Gitignore.MissingAre | builder/src/prepare.c:382-420 | the missing entries come in the order of the list |
| Gitignore.EnsuredIsStable | builder/src/prepare.c:382-420 | afterwards every entry is there, and ensuring again changes nothing |
| Gitignore.PassEnsures | builder/src/prepare.c:382-420 | on a file without a null character a pass ensures every entry |
| Gitignore.PassIsStableExactly | builder/src/prepare.c:382-420 | a second pass changes nothing if and only if the file has no null character or nothing was missing before the first one |
| FunctionPaths.CreateFunctionAllowExpression | core/android/function-paths.ts:126-141 | the index loop builds the anchored pattern defined for the glob |
| FunctionPaths.BodyReads | core/android/function-paths.ts:123-141 | read as a regular expression the pattern has exactly the glob's terms: escaping leaves no character with a meaning of its own |
| FunctionPaths.ExpressionMeansGlob | core/android/function-paths.ts:123-141 | the regular expression accepts exactly the paths of the glob: one star any text without a dot, two stars any text on one line, others themselves |
| FunctionPaths.ExactGlob | core/android/function-paths.ts:159-166 | a pattern without a star accepts itself alone, so the exact branch and the pattern branch agree |
| FunctionPaths.StarsStayInSegments | core/android/function-paths.ts:123-141 | without a double star an accepted path has as many dots as the pattern |
| FunctionPaths.ExpandMuonAndroidFunctionAllows | core/android/function-paths.ts:153-182 | gives the catalog's paths that some pattern accepts, in catalog order, or the first pattern that accepts none |
| FunctionPaths.SelectedInOrder | core/android/function-paths.ts:170-182 | accepted paths keep the catalog's order and number |
| FunctionPaths.SelectionIgnoresOrder | core/android/function-paths.ts:157-182 | the selection depends only on the set of patterns, and is exactly the accepted paths |

## Left out

- Sha1Stream.Context.Update: takes chunks of at most 2^32-64 bytes; for the few longer ones the index arithmetic of the C function wraps around. File hashing feeds at most 64 KiB.
- FileSystem.Disk.RemoveRecursive: removes one file at a time in any order; empty directories are not represented.
- FileSystem.Disk.CopyTree: copies regular files with their contents; permissions and other kinds of entries are not represented.
- Install.PrepareRuntimeInPlace: the lock around it, progress reports and the result record are not represented.
- PrepareRun.PrepareInPlace: the lock, the checks of target and embedded metadata before the configuration is read, and the computation of the fingerprints are not represented.
- Staging.CopyStagingSource: permissions are not copied, since the staging fingerprint ignores them; failing reads and writes are not represented.
- Fingerprint.FingerprintPath: failing reads are not represented.
- SortedNames.SortNames: an insertion sort stands for the library's sort, whose result it has for names that all differ.
- CefPolicy.SortCandidates: an insertion sort stands for the library's sort; ties may come in any order, and nothing is claimed about them.
- CefPolicy.EnsureLatestPolicyArchive: downloading and the API hash inside an archive are parameters; the address of an artifact is a parameter.
- Desktop.StringBuilder.Reserve: allocation always succeeds; only the size limit makes it fail.
- Gitignore.GitignoreFile.EnsureMuonGitignoreEntry: whether a stage directory lies in a project, and which directory that is, is a parameter.
- The embedded Node.js requirement (`builder/src/launcher_config.c`, its reader and validation): further lookups of the kind that is proved.
- Parsing of engine ranges in `builder/src/prepare_node.c`: requirements arrive as sets of comparators.
- The exact CEF policy: a search by equality.
- Big-endian builds of SHA-1 and the wiping of contexts.
- The launcher's own writer of the configuration (`core/cef/src/plugins/builtin/muon_builtin_launcher.cpp`): a request for an update is an event of `PrepareInputs`, not a step on the disk.
- Publication of a staged directory: the old stage is deleted before the rename, so it is not atomic.
- Interleavings of a waiter's read and removal, and reuse of process ids.
- Memory allocation failure and ownership of memory.
- Archive and JSON libraries, downloads, processes and threads as system objects.
- Progress windows, notifications, accessibility and plugins: foreign calls without a property of their own.

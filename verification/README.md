# Verified models of the Ceph and qemu-rbd algorithms

Dafny models of ten self-contained algorithms of Ceph 0.67 and of the qemu rbd
driver, with proofs of what each of them is for. `dafny verify dfyconfig.toml`
checks everything.

| part | modules |
|---|---|
| reservation scheduler | `Reservations`, `ReservationRuns`, `ReservationSteps`, `AsyncReserver` |
| image diff streams and import | `RbdImage`, `RbdDiff`, `RbdDiffRoundTrip`, `RbdDiffExact`, `RbdImport` |
| configuration files | `ConfText`, `ConfLines`, `ConfUtils`, `ConfBlanks`, `ConfGrammar`, `ConfFaults`, `ConfContinued`, `ConfRoundTrip`, `ConfShrink`, `ConfExact`, `ConfFileExact`, `ConfAnswers` |
| keyrings | `Armor`, `ArmorExact`, `Crypto`, `Decimal`, `Numbers`, `KeyRing`, `KeyRingTable`, `KeyRingRoundTrip`, `KeyRingExact` |
| printed configuration files and keyrings | `Formats` |
| qemu rbd option strings | `QemuOptions`, `QemuOptionsRoundTrip` |
| qemu rbd request completion | `QemuAio`, `QemuAioSafety`, `QemuAioDriver` |
| monitor store conversion | `MonStore`, `MonStoreConverter`, `PaxosReplay`, `Migration` |
| object copy | `RadosCopy` |
| crush map build | `CrushMap`, `CrushTree`, `CrushBuckets`, `CrushArrays`, `CrushBuild`, `CrushLayout`, `CrushTool` |
| client capabilities and fake inodes | `Lru`, `InodeCaps`, `CapRefs`, `FuseInodes` |
| inputs on which a promise fails | `Witnesses` |
| shared | `Basics`, `Ordered`, `Covering`, `Bytes`, `Bits` |

Code that changes state step by step is modelled by classes and loops, each proved
against a function of the inputs or of the old state; what the code promises is then
proved about that function, over all inputs or over every run. Where the code keeps a
promise only on some inputs, the exact condition is proved. An assertion of the source
that can fail is a boolean result of the model; where the source states it of its
caller, it is a `requires`.

Findings that the proofs make precise, each with the lemma that gives the exact
condition and one at a failing input:

- A printed configuration file restores what was loaded if and only if every section
  name, key and value reads back from its own line (`PrintedExact`); a value does not if
  it has a quote or a backslash, because the printer escapes neither (`QuoteIsLost`).
  For read() to keep its answers, only the sections that have keys need a readable line
  (`LoadedAnswersExact`, `ReadableKeepsAnswers`, `EmptySectionIsLost`). Comment lines are
  stored under the empty key, and are lost by printing (`CommentIsLost`).
- A printed keyring is regained if and only if each entity name, subsystem and cap string
  reads back (`DecodePrintedExact`, `QuotedCapIsLost`) and no secret is of 64 KiB or more,
  which its 16-bit length field cuts (`KeyTextExact`, `LongSecretIsLost`).
- `normalize_key_name` replaces only the blank (`NormalizeSound`, `TabStays`). Its comment
  speaks of all white space; the model follows the code.
- `import-diff` refuses snapshot names of more than 4096 bytes, which `export-diff`
  writes; everything else round-trips exactly when the extents cover the changes
  (`DiffRoundTrip`, `LongNameIsRefused`). Which other streams it accepts, and with which
  error it refuses the rest, is exact too (`AcceptedExact`, `ReadRecordRefuses`).
- The qemu tokenizer counts the escaping backslashes against its length limits
  (`OptionsRoundTrip`, `LongOptionIsLost`).
- A monitor store is converted exactly when every service has its last committed version
  and some version has a global one (`Migrate`). The retained paxos log replays to the
  same store exactly when each service's last logged version is its last committed one
  (`ReplayExact`, `ReplayChanges`); distinct and increasing global versions suffice
  (`ReplayIsNoOp`).
- `do_copy` loses an omap entry under the empty key and cuts attribute names at a null
  (`CopyExact`, `NotCopied`).
- Every bucket of a crush build stores the weight of the devices below it exactly when
  each uniform layer has one item, or items that are all full, or buckets of one item, or
  one item left over for its last bucket (`BuiltWeightsExact`, `UniformOverstates`). The
  root misses devices exactly when the last layer has no room for all items
  (`RootExact`, `RootIsIncomplete`).
- A fake inode decodes to its own pair exactly if the inode is below 2^48 and fewer than
  2^16 different snapshots were seen up to the first use of its own (`DecodeExact`,
  `LateSnapshotIsLost`, `LargeInodeIsLost`).

## Model

| member | source | states |
|---|---|---|
| ReservationRuns.RunKeepsShape | src/ceph-0.67-src/common/AsyncReserver.h:42-110 | over every run of requests, cancels and limit changes: the waiting list stays in priority-then-arrival order, every item waits or holds a slot at most once, and either all slots are taken or nobody waits |
| ReservationRuns.GrantSound | src/ceph-0.67-src/common/AsyncReserver.h:42-56 | one do_queues grants exactly the free slots capped by the number waiting, never pushes the holders past the limit, and leaves no free slot while somebody waits |
| ReservationRuns.CallbacksConserved | src/ceph-0.67-src/common/AsyncReserver.h:77-110 | over every run, the callbacks waiting, finished and deleted are together, as a multiset, exactly those submitted |
| ReservationRuns.NoOvertaking | src/ceph-0.67-src/common/AsyncReserver.h:42-110 | an item behind another stays behind it until that one is granted, whatever else happens |
| ReservationRuns.SlotKept | src/ceph-0.67-src/common/AsyncReserver.h:97-110 | only a cancel takes a slot away |
| ReservationRuns.ReleasesServeInOrder | src/ceph-0.67-src/common/AsyncReserver.h:42-110 | with all slots in use, n releases serve exactly the first n waiting items in order |
| ReservationRuns.InsertPlace | src/ceph-0.67-src/common/AsyncReserver.h:85-86 | a request goes behind its own and higher priorities and in front of lower ones |
| ReservationSteps.RequestExact | src/ceph-0.67-src/common/AsyncReserver.h:77-88 | what one request changes: with a free slot the item holds it and its callback is finished; otherwise it waits at its place, and nothing else changes |
| ReservationSteps.CancelWaiting | src/ceph-0.67-src/common/AsyncReserver.h:97-110 | cancelling what waits takes exactly that item off the list and deletes exactly its callback; nobody gets a slot |
| ReservationSteps.CancelHeld | src/ceph-0.67-src/common/AsyncReserver.h:97-110 | giving back a slot passes it to the first who waits, whose callback is finished, unless more are held than allowed; no callback is deleted |
| ReservationSteps.CancelUnknown | src/ceph-0.67-src/common/AsyncReserver.h:97-110 | cancelling an item that neither waits nor holds a slot changes nothing |
| ReservationSteps.SetMaxExact | src/ceph-0.67-src/common/AsyncReserver.h:63-67 | a new limit serves as many as it has room for, the first ones in order, and takes no slot away |
| AsyncReserver.AsyncReserver.DoQueues | src/ceph-0.67-src/common/AsyncReserver.h:42-56 | the nested loops over queues and iterators refine granting from one waiting list, and keep the index exact |
| AsyncReserver.AsyncReserver.SetMax | src/ceph-0.67-src/common/AsyncReserver.h:63-67 | a new limit, then granting; the two-way index stays exact |
| AsyncReserver.AsyncReserver.RequestReservation | src/ceph-0.67-src/common/AsyncReserver.h:77-88 | queueing through list and iterator refines insertion into the waiting list |
| AsyncReserver.AsyncReserver.CancelReservation | src/ceph-0.67-src/common/AsyncReserver.h:97-110 | erasing through the stored iterator refines removal of the item, its callback deleted; otherwise the slot is freed |
| RbdDiffRoundTrip.DiffRoundTrip | src/ceph-0.67-src/rbd.cc:1052-1154 | import of an export succeeds exactly if the start snapshot exists, the end one does not and the names fit; it then yields the exported size, the exported content if and only if the extents cover every difference, and the end snapshot of it |
| RbdDiffRoundTrip.PaintedExact | src/ceph-0.67-src/rbd.cc:1489-1551 | writing the reported extents over a base gives the source image if and only if they cover the differences, in any order and overlap |
| RbdDiffRoundTrip.TruncatedImportFails | src/ceph-0.67-src/rbd.cc:1402-1571 | every proper prefix of an export is refused and creates no snapshot |
| RbdDiffRoundTrip.ReadRecordWire | src/ceph-0.67-src/rbd.cc:1454-1551 | the reader recovers exactly the record that was written, and leaves what follows it |
| RbdDiff.DoExportDiff | src/ceph-0.67-src/rbd.cc:1084-1154 | the exporter's loop writes the banner and the encoding of the record list |
| RbdDiff.DoImportDiff | src/ceph-0.67-src/rbd.cc:1426-1571 | the importer's loop has the effect on image and snapshots, and the error, of the parser function; RbdDiffExact says which streams that function accepts, and what it answers to the others |
| RbdDiffExact.StreamLayout | src/ceph-0.67-src/rbd.cc:1084-1154 | the bytes that the exporter writes behind the banner: start name, end name, size, the extents in their order with letter, offset, length and data, and the end |
| RbdDiffExact.ReadRecordExact | src/ceph-0.67-src/rbd.cc:1462-1551 | the reader takes a record from the front of a stream if and only if the bytes of that record stand there and its fields fit |
| RbdDiffExact.ReadRecordRefuses | src/ceph-0.67-src/rbd.cc:1462-1551 | otherwise it is EINVAL for an unknown letter or a name that is announced too long, and EDOM for a stream that is at its end |
| RbdDiffExact.RecordEffect | src/ceph-0.67-src/rbd.cc:1476-1551 | what each record does, byte by byte of the image, and with which error it fails |
| RbdDiffExact.NameCut | src/ceph-0.67-src/rbd.cc:1473-1500 | snapshots are looked up by what a name has in front of its first null |
| RbdDiffExact.BannerNeeded | src/ceph-0.67-src/rbd.cc:1451-1460 | a stream that does not start with the banner is refused, with EINVAL if it is long enough and EDOM if not, and changes nothing |
| RbdDiffExact.UnknownTagRefused | src/ceph-0.67-src/rbd.cc:1462-1546 | behind the banner and any records that succeed, an unknown letter is refused with EINVAL, and no snapshot is made |
| RbdDiffExact.AcceptedExact | src/ceph-0.67-src/rbd.cc:1426-1571 | for every stream and every image: the import succeeds if and only if the stream is the banner, records that all succeed one after the other, and the end, and the end snapshot is new; then the image is what the records make of it |
| RbdImage.File.SafeReadExact | src/ceph-0.67-src/common/safe_io.c:22-58 | reads exactly the requested bytes, or reports the end |
| RbdImport.DoImport | src/ceph-0.67-src/rbd.cc:1269-1396 | however reads split the input: from standard input the image ends equal to it; from a file it is the input cut or padded to the stated size, and the import fails if and only if a block that is not all zero starts at or beyond that size; the write calls are exactly those of blocks that are not all zero, each at its own offset |
| RbdImport.ImportBlocks | src/ceph-0.67-src/rbd.cc:1338-1385 | the block loop: buffer fill, zero skipping and doubling keep image and input in step; one doubling always suffices, and without doubling the loop fails at the first block that does not fit |
| ConfLines.ProcessLine | src/ceph-0.67-src/common/ConfUtils.cc:394-593 | the character state machine accepts exactly the line grammar, with the same key, value, section or error |
| ConfGrammar.LineExact | src/ceph-0.67-src/common/ConfUtils.cc:394-593 | a line is accepted, with this key and value or section, if and only if it is white space and a comment, or a name in brackets, or a key, an equals sign and a value that is nothing, quoted, or bare up to a comment; a backslash makes any character stand for itself |
| ConfGrammar.BlankExact | src/ceph-0.67-src/common/ConfUtils.cc:404-431 | a line is passed over in silence if and only if it is white space |
| ConfFaults.BadExact | src/ceph-0.67-src/common/ConfUtils.cc:394-593 | a line is refused with a given error if and only if that is what is wrong with it: a stray bracket, a missing bracket or name, a comment inside a name, a missing equals sign or key, an open escape or quotation, or text behind the end |
| ConfBlanks.BlankBehind | src/ceph-0.67-src/common/ConfUtils.cc:394-593 | white space at the end of a line changes neither result nor error, unless a backslash is in front of it |
| ConfBlanks.BlankBefore | src/ceph-0.67-src/common/ConfUtils.cc:404-431 | neither does white space in front of it |
| ConfBlanks.LineEnds | src/ceph-0.67-src/common/ConfUtils.cc:394-593 | keys, section names and values that no quotation mark opens never begin or end with white space, carriage returns included |
| ConfText.TrimWhitespace | src/ceph-0.67-src/common/ConfUtils.cc:198-255 | the three copying passes compute the trim function |
| ConfText.TrimSound | src/ceph-0.67-src/common/ConfUtils.cc:198-255 | trimming leaves no white space at the ends, nor runs of it inside on request, and adds nothing |
| ConfText.TrimSplits | src/ceph-0.67-src/common/ConfUtils.cc:198-231 | trimming without the inner pass removes white space at the two ends and nothing else |
| ConfText.NormalizeSound | src/ceph-0.67-src/common/ConfUtils.cc:257-264 | normalizing reaches a normalized key, and changes exactly the keys that are not |
| ConfGrammar.TrimWritten | src/ceph-0.67-src/common/ConfUtils.cc:198-231 | any white space around a text is trimmed and the text stays |
| ConfGrammar.NameWritten | src/ceph-0.67-src/common/ConfUtils.cc:198-264 | a name with white space around it and single characters of it inside is taken as it is; a key has underscores for its blanks |
| ConfGrammar.NameShrinks | src/ceph-0.67-src/common/ConfUtils.cc:233-255 | white space behind white space inside a name goes |
| ConfUtils.ConfFile.LoadFromBuffer | src/ceph-0.67-src/common/ConfUtils.cc:281-387 | the cursor loop refines the fold over logical lines, with continuations joined, bad lines dropped together with their prefix, and all complaints in order |
| ConfContinued.ContinuedJoins | src/ceph-0.67-src/common/ConfUtils.cc:342-352 | anywhere in a text: a backslash and a newline between two pieces of a line load, and complain, as the two pieces written as one line |
| ConfContinued.EndedTaken | src/ceph-0.67-src/common/ConfUtils.cc:342-387 | any number of continued lines and the one that ends them are read as the one line that they make together |
| ConfContinued.EndedReported | src/ceph-0.67-src/common/ConfUtils.cc:342-356 | if that line is in error, the complaint has the number of the line that ends it |
| ConfContinued.RefusedIgnored | src/ceph-0.67-src/common/ConfUtils.cc:320-340 | a line with a null or without valid UTF-8 and the lines continued into it are as if they were not there, but for one complaint under its own number |
| ConfContinued.TailIgnored | src/ceph-0.67-src/common/ConfUtils.cc:305-314 | continued lines at the end of the text, and text behind the last newline, are ignored, each with its complaint |
| ConfBlanks.ReturnsIgnored | src/ceph-0.67-src/common/ConfUtils.cc:281-593 | a file with carriage returns in front of its newlines loads as the file without them, with the same complaints |
| ConfBlanks.LoadedEnds | src/ceph-0.67-src/common/ConfUtils.cc:281-593 | of any text, every section and key is loaded without white space at its ends, and so is every value if nothing is quoted |
| ConfUtils.ConfFile.Read | src/ceph-0.67-src/common/ConfUtils.cc:170-184 | looks the normalized key up |
| ConfUtils.ConfFile.Print | src/ceph-0.67-src/common/ConfUtils.cc:266-279 | prints sections and keys in map order |
| Formats.PrintedOne | src/ceph-0.67-src/common/ConfUtils.cc:266-279 | a printed file of one line, character by character |
| Formats.LinesBehind | src/ceph-0.67-src/common/ConfUtils.cc:271-276 | keys are printed one behind the other |
| Formats.SectionsBehind | src/ceph-0.67-src/common/ConfUtils.cc:268-277 | and so are sections |
| Formats.StringLessExact | src/ceph-0.67-src/common/ConfUtils.cc:50-60 | the order of keys: smaller at the first difference, or a prefix |
| ConfRoundTrip.LastDefinitionWins | src/ceph-0.67-src/common/ConfUtils.cc:342-387 | a loaded file answers with the value of the last logical line that defines the key in the section, and with nothing if none does |
| ConfRoundTrip.SectionLineExact | src/ceph-0.67-src/common/ConfUtils.cc:266-279 | a printed section line reads back if and only if its name is printable |
| ConfRoundTrip.KeyLineExact | src/ceph-0.67-src/common/ConfUtils.cc:266-279 | a printed line reads back as its own key and value if and only if the key is normalized, free of the characters that end or escape it, and does not start like a section, and the value has no quote and no backslash |
| ConfRoundTrip.QuotedLineExact | src/ceph-0.67-src/common/ConfUtils.cc:266-279 | under a readable name, with or without blanks, a printed value reads back if and only if it has no quote and no backslash |
| ConfFileExact.PrintedExact | src/ceph-0.67-src/common/ConfUtils.cc:266-387 | for every section map: loading what is printed of it raises no complaint and restores every section and every key but the empty one if and only if each section name, key and value is readable on its own line |
| ConfExact.EntriesCovered | src/ceph-0.67-src/common/ConfUtils.cc:342-387 | if lines that are made for different entries together load all entries, then each line is accepted and defines the key it was made for |
| ConfRoundTrip.LoadPrinted | src/ceph-0.67-src/common/ConfUtils.cc:266-387 | if every section and line is printable, loading the printed file raises no complaint and restores every section and key but the empty one |
| ConfRoundTrip.PrintThenLoadKeepsAnswers | src/ceph-0.67-src/common/ConfUtils.cc:170-387 | if every section and line is printable, read() gives the same answer after printing and loading, for every section and key, except that the empty key has none |
| ConfAnswers.LoadedAnswersExact | src/ceph-0.67-src/common/ConfUtils.cc:170-387 | for every file that was loaded: printing and loading it keeps every answer of read(), under every section and non-empty key, if and only if every key and value is readable on its own line and the section lines, as they read, lead every table to its own section |
| ConfAnswers.ReadableKeepsAnswers | src/ceph-0.67-src/common/ConfUtils.cc:170-387 | readable keys and values, and a readable line for each section that has keys, are enough for that; of the other sections nothing is asked |
| Armor.ArmorRoundTrip | src/ceph-0.67-src/common/armor.c:48-131 | base64 decoding inverts encoding for every byte string, and the text has no character that the reader treats specially |
| ArmorExact.UnarmoredExact | src/ceph-0.67-src/common/armor.c:99-131 | a text without newlines is base64 if and only if its groups of four, up to the end or the first padded one, are of the alphabet; then its bytes are the bits of the groups, high bits first |
| ArmorExact.NewlineBetween | src/ceph-0.67-src/common/armor.c:106-109 | a newline between groups is skipped |
| ArmorExact.WrittenNumber | src/ceph-0.67-src/common/armor.c:12-34 | every six bits are written as the character that is read as them, never as one of the variants |
| ArmorExact.ArmoredAt | src/ceph-0.67-src/common/armor.c:48-97 | group k of a written text is bytes 3k to 3k+2, high bits first, with zeros for those that are missing |
| ArmorExact.ArmoredShape | src/ceph-0.67-src/common/armor.c:48-97 | it has a group for every three bytes, a padding character for each that is missing at the end, and no variant characters |
| Crypto.KeyTextExact | src/ceph-0.67-src/auth/Crypto.h:46-90 | a key is read back from its base64 text if and only if its secret is shorter than 64 KiB; its text is never refused |
| Crypto.DecodeKeyExact | src/ceph-0.67-src/auth/Crypto.h:53-60 | bytes are read as a key if and only if they begin with its form, whatever follows |
| Crypto.NoKey | src/ceph-0.67-src/auth/Crypto.h:53-60 | all other bytes are too short for the fields or for the secret that they announce |
| Formats.KeyLayout | src/ceph-0.67-src/auth/Crypto.h:46-52 | the bytes of a key: type, seconds, nanoseconds, length and secret, low byte first |
| Decimal.StrtoullPrinted | src/ceph-0.67-src/auth/KeyRing.cc:117-119 | base detection reads back every printed unsigned number |
| Numbers.HexRead | src/ceph-0.67-src/auth/KeyRing.cc:117-119 | behind white space, a sign and 0x or 0X, a number is read in base 16 up to the first other character, limited to 64 bits and negated by a minus |
| Numbers.OctalRead | src/ceph-0.67-src/auth/KeyRing.cc:117-119 | behind 0, in base 8 |
| Numbers.DecimalRead | src/ceph-0.67-src/auth/KeyRing.cc:117-119 | otherwise in base 10 |
| Numbers.NothingRead | src/ceph-0.67-src/auth/KeyRing.cc:117-119 | text without a number is 0 |
| Numbers.CapitalDigit | src/ceph-0.67-src/auth/KeyRing.cc:117-119 | capital letters are the same digits as small ones |
| Numbers.PrintedDecimal | src/ceph-0.67-src/auth/KeyRing.cc:250-251 | auids are printed in base 10 |
| KeyRing.KeyRing.Print | src/ceph-0.67-src/auth/KeyRing.cc:243-262 | prints the entities and their caps in map order |
| Formats.RingOne | src/ceph-0.67-src/auth/KeyRing.cc:243-262 | the printed keyring of one client, character by character |
| Formats.EntitiesBehind | src/ceph-0.67-src/auth/KeyRing.cc:245-260 | entities are printed one behind the other |
| Formats.CapsBehind | src/ceph-0.67-src/auth/KeyRing.cc:253-259 | and so are the caps of each |
| Formats.EntityText | src/ceph-0.67-src/common/entity_name.cc:60-83 | an entity is written as its type, a dot and its id, and read from that text only |
| Formats.EntityLessExact | src/ceph-0.67-src/common/entity_name.cc:156-159 | entities are ordered by type, mon, mds, osd, client, auth, and then by id |
| KeyRing.KeyRing.SetModifier | src/ceph-0.67-src/auth/KeyRing.cc:94-124 | refines the effect of one line on the entity and the caps gathered so far, with every refusal: text that is not base64, bytes that are no key, an empty subsystem, an unknown type |
| KeyRing.KeyRing.DecodePlaintext | src/ceph-0.67-src/auth/KeyRing.cc:163-204 | the loops over sections and lines refine the decoder function, including where it throws |
| KeyRingTable.DecodedExact | src/ceph-0.67-src/auth/KeyRing.cc:94-204 | for any text over any keyring: decoding throws unless every section but "global" names an entity and every line of it is a key in base64, caps of some subsystem or an auid; otherwise every entity takes key, auid and, all at once, caps from its section, as far as they are there, and nothing else changes |
| KeyRingRoundTrip.SubsystemExact | src/ceph-0.67-src/auth/KeyRing.cc:185-193 | the subsystem of a caps line comes back through normalization and re-spacing if and only if it is trimmed, singly spaced and free of underscores |
| KeyRingRoundTrip.DecodeInvertsPrint | src/ceph-0.67-src/auth/KeyRing.cc:163-262 | if every entity name, subsystem and cap string is readable and every secret shorter than 64 KiB, decoding what print writes gives the same entities with the same keys, auids and caps |
| KeyRingExact.DecodePrintedExact | src/ceph-0.67-src/auth/KeyRing.cc:163-262 | for every keyring, and any check_utf8 that accepts 7-bit text: decoding what print writes succeeds with the same keyring if and only if it is readable in this sense |
| QemuOptions.NextTok | src/qemu-rbd-src/rbd.c:113-149 | the in-place tokenizer cuts at the first unescaped delimiter, and copies the token out if and only if it is non-empty and fits |
| QemuOptions.Unescape | src/qemu-rbd-src/rbd.c:151-162 | the in-place loop leaves the unescaped text, null-terminated |
| QemuOptions.SetConf | src/qemu-rbd-src/rbd.c:240-291 | the loop asks librados once for every pair but the "id", in order: to read a file for "conf", and to set the option otherwise; it stops at the first refusal, which gives the result, or ends with a syntax error or the last answer |
| QemuOptionsRoundTrip.ParseJoined | src/qemu-rbd-src/rbd.c:113-291 | escaping and joining any pairs and parsing them gives the pairs in front of the first that does not fit |
| QemuOptionsRoundTrip.OptionsRoundTrip | src/qemu-rbd-src/rbd.c:113-291 | the round trip holds if and only if every escaped name has 1 to 127 characters and every escaped value 1 to 511 |
| QemuOptionsRoundTrip.JoinedCarried | src/qemu-rbd-src/rbd.c:240-291 | for options that are escaped and joined and fit, these calls are those of the options |
| QemuOptionsRoundTrip.TrailingRefused | src/qemu-rbd-src/rbd.c:113-291 | a delimiter behind them is a syntax error |
| QemuOptionsRoundTrip.LoneBackslash | src/qemu-rbd-src/rbd.c:113-162 | a backslash at the end of a token stands for itself and hides nothing |
| QemuAioSafety.StepKeeps | src/qemu-rbd-src/rbd.c:379-794 | no step of any party touches freed memory, and each keeps the protocol invariant |
| QemuAioSafety.EveryRunSafe | src/qemu-rbd-src/rbd.c:379-794 | in every interleaving nothing is used after it is freed, and callback and both frees happen at most once |
| QemuAioSafety.QuiescentDone | src/qemu-rbd-src/rbd.c:379-794 | at rest, each request was called back exactly once with its own result and data, and both blocks were freed exactly once |
| QemuAioSafety.RestingRunCompletes | src/qemu-rbd-src/rbd.c:379-794 | the same for every run from the start that has come to rest |
| QemuAioSafety.AnswerDelivered | src/qemu-rbd-src/rbd.c:379-794 | whatever comes before and after the library answers a request: at rest, its callback was given that answer once, 0 or the error, with the bytes that were read and zeros behind them |
| QemuAioSafety.SettledExact | src/qemu-rbd-src/rbd.c:379-405 | return value, error flag and buffer after a completion, for each kind of request and result |
| QemuAioSafety.StepProgresses | src/qemu-rbd-src/rbd.c:379-794 | every step but a new request or a new cancel decreases the remaining work |
| QemuAioSafety.InternalRunEnds | src/qemu-rbd-src/rbd.c:379-794 | a run of such steps is no longer than the work there was |
| QemuAioSafety.NotStuck | src/qemu-rbd-src/rbd.c:603-613 | unless all is at rest some such step is possible, so that a waiting cancel is never stuck |
| QemuAioDriver.RbdDriver.CompleteAio | src/qemu-rbd-src/rbd.c:379-409 | the statements of the completion are one step of the protocol |
| QemuAioDriver.RbdDriver.EventReader | src/qemu-rbd-src/rbd.c:417-438 | one read of any number of bytes is one step of the protocol, completing the request once the pointer is whole |
| QemuAioDriver.RbdDriver.AioBhCb | src/qemu-rbd-src/rbd.c:675-691 | the bottom half is one step, and calls back with 0 or the error |
| MonStoreConverter.Converter.ConvertVersions | src/ceph-0.67-src/mon_store_converter.cc:171-217 | the version loop refines the fold over existing versions, and gathers their global versions |
| MonStoreConverter.Converter.ConvertMachine | src/ceph-0.67-src/mon_store_converter.cc:145-247 | one service, with the failing assertion as a result |
| MonStoreConverter.Converter.FindWindow | src/ceph-0.67-src/mon_store_converter.cc:252-270 | the backward loop finds the longest contiguous end of at most 50 |
| MonStoreConverter.Converter.ConvertPaxos | src/ceph-0.67-src/mon_store_converter.cc:249-286 | erases exactly what is below the window and records its bounds |
| MonStoreConverter.Converter.ConvertMachines | src/ceph-0.67-src/mon_store_converter.cc:288-298 | all services, then the log |
| PaxosReplay.PaxosWindow | src/ceph-0.67-src/mon_store_converter.cc:249-286 | the stored log is exactly the interval from first_committed to last_committed, ends at the highest global version, has at most 50 entries and is maximal |
| PaxosReplay.ConvertedRecorded | src/ceph-0.67-src/mon_store_converter.cc:171-217 | every version is stored with its bytes, and each retained log entry is the transaction of the last version with that global version |
| PaxosReplay.ReplayExact | src/ceph-0.67-src/mon_store_converter.cc:171-286 | replaying the retained log over the converted store changes nothing if and only if each service's last logged version is its last committed one |
| PaxosReplay.ReplayIsNoOp | src/ceph-0.67-src/mon_store_converter.cc:171-286 | it changes nothing when all versions have global versions that are distinct and increase within a service |
| PaxosReplay.AllLastFoundExact | src/ceph-0.67-src/mon_store_converter.cc:145-247 | the assertions on the store that is being built hold for all services, one after the other, if and only if every service of the old store ends with its last committed version |
| Migration.Migrate | src/ceph-0.67-src/mon_store_converter.cc:145-298 | a whole conversion succeeds if and only if in the old store the last committed version of every service is 0 or one of its files, not in front of its first, and some version that is converted has a global version; the new store then holds, in terms of the old one, exactly what the next rows say, and replay changes nothing if and only if the last logged version of each service in the window is its last committed one |
| Migration.ConvertedServices | src/ceph-0.67-src/mon_store_converter.cc:171-247 | for every key of every service: its versions with their bytes, first and last committed, and of a non-empty latest file its bytes, version and full map; and nothing else, of nobody else |
| Migration.ConvertedHolds | src/ceph-0.67-src/mon_store_converter.cc:249-286 | of the log: the entries from its first to its last, each the transaction of its owner, the bounds, and the highest accepted_pn and last_pn of all services or 0; and nothing else |
| Migration.OwnerExact | src/ceph-0.67-src/mon_store_converter.cc:188-215 | the owner of a log entry is the last version, of the last service, with that global version |
| Migration.WindowExact | src/ceph-0.67-src/mon_store_converter.cc:249-270 | the window that is kept, over the global versions of the old store: all of them are there, none is higher, and it is 50 or could not be longer |
| RadosCopy.DoCopy | src/ceph-0.67-src/rados.cc:222-309 | on success the target is exactly the copy; on failure it is untouched, or gone, or, if its removal was tried and failed, a part of the copy; no other object changes |
| RadosCopy.CopyData | src/ceph-0.67-src/rados.cc:269-283 | the chunk loop copies all data, for every size including exact multiples |
| RadosCopy.CopyOmap | src/ceph-0.67-src/rados.cc:285-302 | the cursor loop copies every keyed entry; the pages, one after the other, are the keys in order, each once |
| RadosCopy.CopyExact | src/ceph-0.67-src/rados.cc:222-309 | the copy equals the source if and only if no omap key is empty and no attribute name contains a null |
| RadosCopy.CopyAttributes | src/ceph-0.67-src/rados.cc:258-261 | of attribute names that are the same up to their first null, the last in order gives the value; no others are made |
| RadosCopy.NextPage | src/ceph-0.67-src/rados.cc:286-298 | a page and the page after its last key are together a page, and the first is wholly in front of the second |
| CrushBuckets.MakeBucket | src/ceph-0.67-src/crush/builder.c:170-543 | for each kind of bucket, which weight it stores, its item weight, sum weights or node weights, and exactly when it is refused |
| CrushArrays.MadeExact | src/ceph-0.67-src/crush/builder.c:170-543 | what each kind of bucket stores for its items: type and items; the first weight and its multiple; the weights and their running sums; the weight tree with the bucket's weight at its root; or the weights |
| CrushArrays.SumsExact | src/ceph-0.67-src/crush/builder.c:247-262 | a list bucket's first sum is its first weight, each next one is larger by its own weight, and the last is the bucket's weight |
| CrushArrays.TreeExact | src/ceph-0.67-src/crush/builder.c:309-364 | a tree bucket has a power of two of nodes, at least two and less than four for each item; item i is leaf 2i+1, and every other node weighs what its children weigh |
| CrushMap.BucketWeightExact | src/ceph-0.67-src/crushtool.cc:550-575 | for the weights that the build passes, all but the last equal and the last not larger, the stored weight is the sum of the items' if and only if the bucket is not uniform or all its items weigh the same |
| CrushMap.Map.AddBucket | src/ceph-0.67-src/crush/builder.c:114-158 | the bucket gets the next id; a full table of 0 grows to 8 and any other to twice its size |
| CrushTree.MakeTree | src/ceph-0.67-src/crush/builder.c:309-364 | every node of a tree bucket weighs the leaves below it, the root node weighs the bucket as the source insists, and it is refused exactly if the sum does not fit |
| CrushTree.Parent | src/ceph-0.67-src/crush/builder.c:278-296 | the bit arithmetic of height, on_right and parent leads from node k of a level to node k/2 of the next |
| CrushTree.ChildrenSplit | src/ceph-0.67-src/crush/builder.c:309-364 | a node weighs what its two children weigh |
| CrushTool.Build | src/ceph-0.67-src/crushtool.cc:510-580 | for every build whose weights sum up to an int: the build loop makes exactly the buckets of the layer function, never overruns its arrays, and no bucket is refused |
| CrushTool.BuildLayer | src/ceph-0.67-src/crushtool.cc:542-580 | one layer of it |
| CrushBuild.LayerPlacesAll | src/ceph-0.67-src/crushtool.cc:542-580 | a layer places every item below in exactly one bucket, in order, and keeps the total weight |
| CrushLayout.BuiltAt | src/ceph-0.67-src/crushtool.cc:510-580 | bucket k of layer t comes behind those of the layers below, has type t+1 and the kind that was asked for, and holds items k*size up to (k+1)*size of the layer below, as far as there are so many |
| CrushLayout.BuiltItems | src/ceph-0.67-src/crushtool.cc:510-580 | the items of the first layer are the devices 0 to n-1, those of the next the ids of the buckets, from -1 down as they are made; there are as many buckets as the quotient rounded up, or one for size 0 |
| CrushBuild.NextLevelOk | src/ceph-0.67-src/crushtool.cc:520-580 | every layer keeps: the devices below its items are 0 to n-1, each once and in order, and all weights are theirs |
| CrushBuild.BuiltWeight | src/ceph-0.67-src/crushtool.cc:510-580 | every layer's weights add up to 0x10000 for each device |
| CrushBuild.BuiltBucketWeight | src/ceph-0.67-src/crushtool.cc:550-575 | every bucket's item weights are those of its subtree, and it stores that weight if and only if it is not uniform or its items weigh the same |
| CrushBuild.BuiltWeightsExact | src/ceph-0.67-src/crushtool.cc:510-580 | for every device count and layer list: all buckets store the weight of the devices below them if and only if every uniform layer, over c items, has c <= 1, or devices for c full items, or bucket size 1, or a positive size that leaves one item over |
| CrushBuild.RootExact | src/ceph-0.67-src/crushtool.cc:510-580 | the root holds every device exactly once and in order if and only if the last layer has size 0 or room for all items below it |
| InodeCaps.Inode.CapsIssuedMask | src/ceph-0.67-src/client/Inode.cc:178-217 | on every path: true if and only if every bit of the mask is in exporting_issued, in snap_caps or in some cap; it touches nothing, or the auth cap, or the cap of the lowest key that is enough, or all in key order; what it touches moves to the back of its session's list and everything else keeps its order |
| InodeCaps.Inode.CapsIssued | src/ceph-0.67-src/client/Inode.cc:149-165 | a bit is issued if and only if exporting_issued, snap_caps or some cap has it, and implemented if and only if some cap has it |
| InodeCaps.IsTouchedExact | src/ceph-0.67-src/client/Inode.cc:167-171 | touching distinct caps permutes the list: the untouched in their order, then the touched in theirs |
| Lru.TouchedExact | src/ceph-0.67-src/include/xlist.h:103-133 | repeated push_back of distinct items, for any list |
| CapRefs.Counters.GetCapRef | src/ceph-0.67-src/client/Inode.cc:100-111 | the bit loop refines adding one to each counter of the mask |
| CapRefs.Counters.PutCapRef | src/ceph-0.67-src/client/Inode.cc:113-136 | the bit loop refines subtracting one, with the assertion and the last-reference result |
| CapRefs.Counters.CapsUsed | src/ceph-0.67-src/client/Inode.cc:219-228 | the result has exactly the bits whose counter is not 0 |
| CapRefs.PutableExact | src/ceph-0.67-src/client/Inode.cc:113-136 | the assertion holds if and only if every counter of the mask is positive, and put returns true if and only if one of them is 1 |
| CapRefs.RunCounts | src/ceph-0.67-src/client/Inode.cc:100-136 | over every run that puts only what it holds, each counter is the number of held masks with that bit |
| CapRefs.RunPut | src/ceph-0.67-src/client/Inode.cc:113-136 | over every such run the assertion never fails, and put returns true exactly when some bit is held no more |
| CapRefs.RunUsed | src/ceph-0.67-src/client/Inode.cc:219-228 | over every such run caps_used is the union of the held masks |
| FuseInodes.DecodeExact | src/ceph-0.67-src/client/fuse_ll.cc:720-752 | a number handed out anywhere in a run decodes at its end to its own inode and snapshot if and only if the inode is below 2^48, the snapshot is the live one or has a rank below 2^16, and it is not the live inode 1 under another mounted root |
| FuseInodes.TagIsRank | src/ceph-0.67-src/client/fuse_ll.cc:739-752 | the tag of a call is the rank of its snapshot: 0 for the live one, otherwise one more than the number of other snapshots that the run saw before the first use of it |
| FuseInodes.NoCollision | src/ceph-0.67-src/client/fuse_ll.cc:739-752 | for inodes below 2^48 and snapshots of rank below 2^16, equal numbers mean equal pairs |
| FuseInodes.PackExact | src/ceph-0.67-src/client/fuse_ll.cc:37-39 | packing is undone by unpacking if and only if both parts fit |
| FuseInodes.FinoBits | src/ceph-0.67-src/client/fuse_ll.cc:37-39 | for any inode and tag: the low 16 bits of the tag go on top of the bits from 48 up |
| FuseInodes.RunInverse | src/ceph-0.67-src/client/fuse_ll.cc:608-619 | over every run the two maps stay inverse to each other, on exactly the tags 0 to the last |
| FuseInodes.Handle.MakeFakeIno | src/ceph-0.67-src/client/fuse_ll.cc:739-752 | the method is the next call of a run |
| FuseInodes.Handle.FinoVino | src/ceph-0.67-src/client/fuse_ll.cc:720-736 | decodes, or fails its assertion exactly on an unknown tag |
| Witnesses.QuoteIsLost | src/ceph-0.67-src/common/ConfUtils.cc:266-387 | the text of a section with an escaped quote as a value is loaded, and what is loaded is not restored |
| Witnesses.EmptySectionIsLost | src/ceph-0.67-src/common/ConfUtils.cc:170-387 | a loaded section without keys, with a bracket in its name, is not restored, though every answer is kept |
| Witnesses.CommentIsLost | src/ceph-0.67-src/common/ConfUtils.cc:170-387 | a comment answers for the empty key, and no longer does after printing and loading, for any check_utf8 that accepts 7-bit text |
| Witnesses.TabStays | src/ceph-0.67-src/common/ConfUtils.cc:257-264 | a tab inside a key is kept by normalizing |
| Witnesses.QuotedCapIsLost | src/ceph-0.67-src/auth/KeyRing.cc:163-262 | the keyring with a quote as a cap string is not regained |
| Witnesses.LongSecretIsLost | src/ceph-0.67-src/auth/Crypto.h:46-90 | a secret of 64 KiB comes back empty |
| Witnesses.LongNameIsRefused | src/ceph-0.67-src/rbd.cc:1402-1571 | the export with an end snapshot name of 4097 bytes is refused |
| Witnesses.LongOptionIsLost | src/qemu-rbd-src/rbd.c:113-149 | a name of 64 characters that are escaped does not come back, under a limit of 128 |
| Witnesses.ReplayChanges | src/ceph-0.67-src/mon_store_converter.cc:171-286 | an old store with two versions of one of the six services, whose global versions are crossed, is converted, and replaying its log changes the result |
| Witnesses.NotCopied | src/ceph-0.67-src/rados.cc:222-309 | the copies of an object with an empty omap key and of one with a null in an attribute name differ from it |
| Witnesses.UniformOverstates | src/ceph-0.67-src/crushtool.cc:510-580 | three devices in buckets of two, and those in one uniform bucket: the root stores the weight of four and holds three |
| Witnesses.RootIsIncomplete | src/ceph-0.67-src/crushtool.cc:510-580 | three devices in buckets of two, and no more: the last bucket holds one |
| Witnesses.LateSnapshotIsLost | src/ceph-0.67-src/client/fuse_ll.cc:720-752 | after 65536 snapshots, the number handed out for the last one decodes as the live one |
| Witnesses.LargeInodeIsLost | src/ceph-0.67-src/client/fuse_ll.cc:37-39 | the first inode of 49 bits is cut, whatever the tag |
| Ordered.InOrderUnique | src/ceph-0.67-src/common/ConfUtils.cc:266-279 | the in-order walk of a C++ map that the printers rely on is the only increasing listing of its keys |

## Left out

- Program start, option parsing, usage texts, daemons, messengers, progress output.
- Threads and locks: methods under a lock are single steps. The qemu completion is a machine of interleaved steps instead.
- librbd, librados, the monitor database and the finisher are small states with explicit contracts. `diff_iterate` appears as any list of extents in the image, with "does not exist" only where it reads as zero.
- RbdImport.DoImport: read failures other than the end of input, and failing writes, resizes and closes, are not modelled.
- RbdDiff.DoImportDiff: as in the source, the results of write and discard are ignored, and here they succeed; 64-bit overflow of offset plus length inside librbd is not part of this model.
- RbdDiffRoundTrip.TruncatedImportFails: what a refused stream has already written to the image stays; that no snapshot is made is what is stated.
- ConfUtils.ConfFile.LoadFromBuffer: `check_utf8` is a predicate parameter; error texts, the character positions in them, and the warning about a redefined key are not modelled.
- ConfRoundTrip.PrintThenLoadKeepsAnswers: stated for printable files, loaded or not; the exact conditions are ConfFileExact.PrintedExact for restoring and ConfAnswers.LoadedAnswersExact for the answers of a loaded file.
- KeyRing.KeyRing.DecodePlaintext: a cap is kept as its string, without the length prefix of its buffer; the attempt to decode a binary keyring first, and encrypted keys, are left out.
- KeyRingExact.DecodePrintedExact: the predicate that stands for `check_utf8` is taken to accept every text of 7-bit characters, as that function does; the lines of keys and auids are such texts.
- KeyRing.KeyRing.SetModifier: a null value cannot occur, because values come from lines.
- QemuAioSafety.EveryRunSafe: pipe sends succeed, requests that fail to start are left out, and cancel is called on live requests only.
- QemuOptions.SetConf: `qemu_rbd_parsename` is left out; its search for '@' ignores escapes.
- MonStoreConverter.Converter.ConvertMachine: the version and the map that a latest file encodes are given with its bytes; version numbers are keys of their own instead of decimal strings; the joining of the monitor's own keys and the `match` check are left out.
- MonStoreConverter.Converter.FindWindow: the reverse iterator is taking the highest number that is left.
- RadosCopy.DoCopy: the source object does not change during the copy; a failed call has no effect; a failing removal may leave a part of the copy.
- RadosCopy.CopyOmap: the calls return keys strictly after the cursor, as librados does.
- CrushTool.Build: layer sizes are not negative, since a negative one makes the source loop for ever; 0x10000 for each device must fit an int, because the source adds the weights up in one, and overflow of it is undefined in C++; names and rules are left out.
- CrushBuckets.MakeBucket: memory allocation succeeds; straw lengths, which are floating point, and permutations are left out.
- InodeCaps.Inode.CapsIssuedMask: masks are non-negative; a cap's list item is on the list of its own session.
- CapRefs.Counters.GetCapRef: the mask is not negative, since the source loops for ever on one.
- FuseInodes.Handle.MakeFakeIno: `last_stag` is unbounded, while the source's int would overflow after 2^31 snapshots; new_encode_dev and new_decode_dev are left out.
- DecayCounter, RotatingSecrets, AuthMethodList, dentry reference counts, rados_sync, rados_import and rados_export are left out.
- The 0.72.2 copies of these files are not modelled separately.

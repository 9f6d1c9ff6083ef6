# Models of the news server and firewall helpers

This project states in Dafny what the algorithmic core of three programs does, and proves what
they promise. It covers the parts of ucspi-tcp 0.88 and noffle 1.0.1 that carry algorithms, and
the small cipher in `config/polizei/bullencode/safe.c`.

Check everything with `dafny verify dfyconfig.toml`.

## What is modelled

- **The rule database.** `tcprules` compiles access rules into a constant database, which
  `cdb_make` lays out as 256 open-addressed hash tables; `rules` looks a client up in it.
  `CdbFormat` says what a database file of given records is, `CdbMake` builds one in place,
  `Cdb` probes it with resumable state. `RuleText` says what rule text means without any
  database, `TcpRules` compiles it, and `Rules` ends in `CompileAndQuery`: the compiled database
  answers every query as the text does. Both programs use 32-bit arithmetic, written out.
- **The wildcard matcher** of noffle (`Wildmat`), with its third answer ABORT and the number of
  calls it makes.
- **DNS names and packets.** `DnsDomain` (lengths, comparison), `DnsPacket` (decompression,
  skipping), `DnsText` (dotted text to name and back), `DnsTransmit` (the retry machine for one
  query by UDP and TCP).
- **Byte streams.** `Buffer` runs over a device that may accept or deliver as little as it likes
  and may be interrupted; `CrFilters` puts addcr, delcr and fixcrio on top.
- **noffle's texts and numbers.** `Content` (article numbers of a group over any run of
  sessions), `Header` (folding and unfolding header lines), `Protocol` (dot-stuffing),
  `ItemList` (the item list cut in place), with `Pieces` for words and items.
- **The cipher** (`Safe`).

Programs that change fields or arrays in place are classes and methods here; each method is tied
to a function or predicate on values, and the lemmas are about those.

## Results about the code that a reader may not expect

- addcr and delcr ignore the results of the writes that put single bytes. After exit code 0
  everything was written if and only if no write has failed (`CrFilters.Addcr`, `CrFilters.Delcr`),
  and there are runs that exit with 0 after a failed write and have lost output
  (`CrFilters.LosingAddcr`, `CrFilters.LosingDelcr`).
- A value that ends with blanks can leave a header line that holds a blank alone. That happens if
  and only if the value has a word and the blanks at its end do not fit behind the last line of
  the rest (`Header.EmptyLastLineExactly`). Reading the header then stops in front of that line
  (`Header.WriteThenRead`, `Header.TrailingBlank`), and stripping it looks at the character in
  front of the buffer (`Header.StripWhiteSpace`).
- A line put together from pieces can reach 2048 characters. `Utl_catStr` then writes its end of
  string one byte behind the buffer (`newsserver/noffle-1.0.1/src/util.c:207-210`). The result is
  that long if and only if both strings together have at least 2048 characters (`Header.CatStr`);
  the headers of the round trip stay shorter (`Header.WriteThenRead`).
- An item that begins with character 1 is delivered without it, or missed
  (`ItemList.DeliveredExactly`, `ItemList.MarkedItems`).
- A text line that does not fit one read of 2047 characters, stuffing and CR LF included, does
  not come back as it was, and no later line makes up for it (`Protocol.RoundTrip`).
- In rule text an empty number in a range counts as 0, a zero byte ends a number, and numbers
  wrap at 2^32, as the 32-bit programs of the repository do (`RuleText`, `TcpRules.ScanUlong`).

## Conventions

- Bytes are numbers from 0 to 255 or 8-bit vectors, files and packets are sequences of them,
  `uint32` has 32 bits, `unsigned long` has 32 bits and `char` is signed where that matters.
- Memory allocation succeeds, except in `DnsTransmit`, where its failure is one of the ways in
  which a query ends. Results of the operating system are parameters or arbitrary values:
  a device follows an arbitrary finite script of how many bytes a call transfers, whether it is
  interrupted and whether it fails; behind the script it transfers all it is given or asked for.
  A write never accepts 0 bytes, and the input is finite.
- `isspace` is that of the C locale.
- The lemma names in the table are those of the declarations; rows that say "main result" are the
  ones to read first.

## Model

| member | source | states |
|---|---|---|
| `CdbFormat.HashAdd` | `newsserver/ucspi-tcp-0.88/cdb_hash.c:5-9` | one hash step, done as a shift and an addition that wrap at 32 bits, is multiplication by 33 modulo 2^32 followed by xor with the byte |
| `CdbFormat.Hash` | `newsserver/ucspi-tcp-0.88/cdb_hash.c:11-21` | the loop computes the hash that the writer files a record under and the reader looks for |
| `Bytes.UnpackPair` | `newsserver/ucspi-tcp-0.88/uint32_unpack.c:3-16` | two packed 32-bit numbers in eight bytes are read back as the same two numbers |
| `CdbMake.Maker.constructor` | `newsserver/ucspi-tcp-0.88/cdb_make.c:10-20` | a started database has no records and stands behind the 2048-byte directory |
| `CdbMake.Maker.PosPlus` | `newsserver/ucspi-tcp-0.88/cdb_make.c:22-28` | the wrap-around test refuses exactly the steps that would carry the position to 2^32 or beyond, and then changes nothing |
| `CdbMake.Maker.AddEnd` | `newsserver/ucspi-tcp-0.88/cdb_make.c:30-50` | the entry appended to the block list carries the hash and the position before the record; it succeeds exactly when the whole record ends below 2^32 |
| `CdbMake.Maker.Add` | `newsserver/ucspi-tcp-0.88/cdb_make.c:65-71` | succeeds exactly when the records still fit below 2^32; then the output is the stream of all records in order and the entry list matches it |
| `CdbMake.CountBuckets` | `newsserver/ucspi-tcp-0.88/cdb_make.c:85-92` | after the first loops count[b] is the number of entries whose hash ends in byte b, over all blocks |
| `CdbMake.Maker.Allocate` | `newsserver/ucspi-tcp-0.88/cdb_make.c:94-109` | neither the sum nor the product wraps; on success the space holds all entries and, for every bucket, a table of twice its size |
| `CdbMake.Ends` | `newsserver/ucspi-tcp-0.88/cdb_make.c:111-115` | start[b] becomes the end of the region of bucket b, the sum of all counts up to b |
| `CdbMake.Distribute` | `newsserver/ucspi-tcp-0.88/cdb_make.c:117-121` | walking the blocks backwards puts every entry at its own place in its bucket region: a stable counting sort |
| `CdbMake.DestDistinct` | `newsserver/ucspi-tcp-0.88/cdb_make.c:117-121` | two different entries are never put at the same place by the sort |
| `CdbMake.DestInRange` | `newsserver/ucspi-tcp-0.88/cdb_make.c:117-121` | every place the sort writes to lies inside the entries part of the allocated space |
| `CdbMake.BucketRange` | `newsserver/ucspi-tcp-0.88/cdb_make.c:117-133` | after the sort, the region of bucket b lists exactly the entries of b in insertion order |
| `CdbMake.BaseTotal` | `newsserver/ucspi-tcp-0.88/cdb_make.c:111-115` | the bucket sizes add up to the number of entries |
| `CdbMake.FreeSlot` | `newsserver/ucspi-tcp-0.88/cdb_make.c:130-140` | a table with twice as many slots as entries has a free slot while entries are left, so that the probe loop ends |
| `CdbMake.FindFree` | `newsserver/ucspi-tcp-0.88/cdb_make.c:135-137` | the probe loop stops at the first free slot from the home slot on, round the end of the table |
| `CdbMake.InsertEntry` | `newsserver/ucspi-tcp-0.88/cdb_make.c:134-139` | linear probing with wrap-around ends at a free slot, and every slot passed over holds an older entry of the bucket |
| `CdbMake.InsertKeeps` | `newsserver/ucspi-tcp-0.88/cdb_make.c:133-140` | inserting one more entry leaves a table that holds exactly the earlier entries of the bucket and this one, each reachable from its home slot |
| `CdbMake.BuildTable` | `newsserver/ucspi-tcp-0.88/cdb_make.c:130-140` | the finished table of a bucket holds exactly the entries of that bucket, with an older entry in every slot that a younger one had to skip |
| `CdbMake.Maker.WriteTable` | `newsserver/ucspi-tcp-0.88/cdb_make.c:142-147` | the slots are appended eight bytes each, and the position moves with them or refuses to pass 2^32 |
| `CdbMake.Maker.FinishBucket` | `newsserver/ucspi-tcp-0.88/cdb_make.c:123-148` | after bucket i, directory, table bytes and position agree for all buckets up to i |
| `CdbMake.BuiltStep` | `newsserver/ucspi-tcp-0.88/cdb_make.c:123-148` | writing the directory entry and table of the next bucket does not disturb those of the buckets before |
| `CdbMake.BuiltAll` | `newsserver/ucspi-tcp-0.88/cdb_make.c:150-152` | directory, records and 256 tables put together are a constant database of exactly the records added |
| `CdbMake.Maker.Sort` | `newsserver/ucspi-tcp-0.88/cdb_make.c:85-121` | counting, allocation and distribution end in the state in which the tables can be built, or fail exactly when the memory size would not fit 32 bits |
| `CdbMake.Maker.Finish` | `newsserver/ucspi-tcp-0.88/cdb_make.c:73-153` | for any records added: succeeds exactly under a stated size condition, and the file is then a database of exactly these records (every one reachable, nothing else in any table) |
| `CdbMake.RecordsInStream` | `newsserver/ucspi-tcp-0.88/cdb_make.c:42-49` | every entry position points at the bytes of its record in the stream |
| `Cdb.Reader.Read` | `newsserver/ucspi-tcp-0.88/cdb.c:44-49` | delivers the bytes asked for exactly when they lie inside the file, for every position and length |
| `Cdb.Reader.Match` | `newsserver/ucspi-tcp-0.88/cdb.c:70-85` | comparing in pieces of 32 bytes says 1 exactly when the key stands at the position, 0 when other bytes do, and -1 only if the file ends before a difference |
| `Cdb.Reader.Locate` | `newsserver/ucspi-tcp-0.88/cdb.c:93-104` | a fresh search goes to the home slot of the key in the table of its bucket, or finds that no record has the key when the table is empty |
| `Cdb.Reader.CheckRecord` | `newsserver/ucspi-tcp-0.88/cdb.c:113-126` | a slot with the right hash is a hit exactly when its record carries the whole key; then data position and length are those of the record |
| `Cdb.Reader.Probe` | `newsserver/ucspi-tcp-0.88/cdb.c:106-126` | one step of the search either delivers the next record with the key, or passes over a slot of another key, or ends because no such record is left |
| `Cdb.Reader.FindNext` | `newsserver/ucspi-tcp-0.88/cdb.c:87-130` | the k-th call of a search delivers the k-th oldest record with the key, and 0 after the last one, in every database that was made from the records; in any file at all it stays inside the file |
| `Cdb.Reader.Find` | `newsserver/ucspi-tcp-0.88/cdb.c:132-136` | starts over: delivers the oldest record with the key, or 0 when there is none |
| `Cdb.Reader.FindAll` | `newsserver/ucspi-tcp-0.88/cdb.c:87-136` | find and repeated findnext collect exactly the data of the records with the key, in the order in which they were added |
| `Cdb.SearchOver` | `newsserver/ucspi-tcp-0.88/cdb.c:106-109` | at a free slot, or after a whole turn, every record with the key has been delivered |
| `Cdb.SlotTaken` | `newsserver/ucspi-tcp-0.88/cdb.c:106-113` | a taken slot on the way holds the entry of some record of the same bucket |
| `Cdb.NextMatch` | `newsserver/ucspi-tcp-0.88/cdb.c:114-125` | when a slot of the search turns out to carry the key, its record is the oldest one not yet delivered |
| `Cdb.MatchesSpread` | `newsserver/ucspi-tcp-0.88/cdb_make.c:134-139` | records with equal keys lie in insertion order along the probe sequence |
| `Cdb.DataOfMatches` | `newsserver/ucspi-tcp-0.88/cdb.c:120-124` | the data wanted for a key are those of the records that carry it, oldest first |
| `RuleText.ValueOfDec` | `newsserver/ucspi-tcp-0.88/fmt_ulong.c:3-13` | a canonical decimal consists of digits and denotes the number it was made from |
| `RuleText.GetNumDec` | `newsserver/ucspi-tcp-0.88/tcprules.c:46-51` | reading back a canonical decimal gives the number |
| `RuleText.RangeShape` | `newsserver/ucspi-tcp-0.88/tcprules.c:61-73` | an address prefix-lo-hi-suffix without "=" and "@" means the range from lo to the smaller of hi and 255 between that prefix and that suffix, and is malformed when lo or hi is not a number |
| `RuleText.ParseRender` | `newsserver/ucspi-tcp-0.88/tcprules.c:144-163` | variables written with any delimiter that does not occur in their value are parsed back as the same variables |
| `RuleText.ParseSound` | `newsserver/ucspi-tcp-0.88/tcprules.c:144-163` | whatever parses is the text of the variables found: nothing is skipped or invented |
| `RuleText.ParseInstrExact` | `newsserver/ucspi-tcp-0.88/tcprules.c:134-163` | an instruction parses to a meaning if and only if it is the text of that meaning |
| `TcpRules.FmtUlong` | `newsserver/ucspi-tcp-0.88/fmt_ulong.c:3-13` | the digits written are the canonical decimal of the number, within the 40 bytes given |
| `TcpRules.ScanUlong` | `newsserver/ucspi-tcp-0.88/scan_ulong.c:3-14` | stops at the first byte that is not a digit; the value is that of the digits modulo 2^32 |
| `TcpRules.ReadNum` | `newsserver/ucspi-tcp-0.88/tcprules.c:46-51` | accepts exactly what consists of digits up to its end or first zero byte |
| `TcpRules.ReadVar` | `newsserver/ucspi-tcp-0.88/tcprules.c:146-160` | one variable is appended as +NAME=value and a zero byte, or the line is refused |
| `TcpRules.ReadInstr` | `newsserver/ucspi-tcp-0.88/tcprules.c:134-163` | the data bytes are those of the meaning of the instruction, or the line is refused exactly when it has none |
| `TcpRules.Compiler.ReadAddress` | `newsserver/ucspi-tcp-0.88/tcprules.c:61-73` | finds out whether the address is a plain key, a range or a malformed range |
| `TcpRules.Compiler.AddNumbered` | `newsserver/ucspi-tcp-0.88/tcprules.c:76-79` | adds the record for one number of a range, as prefix, canonical decimal and suffix |
| `TcpRules.Compiler.DoRange` | `newsserver/ucspi-tcp-0.88/tcprules.c:75-81` | adds one record for every number of the range, in ascending order |
| `TcpRules.Compiler.DoAddressData` | `newsserver/ucspi-tcp-0.88/tcprules.c:53-88` | adds the records that the address stands for; fails exactly for a malformed range or when the database would be too large |
| `TcpRules.Compiler.TrimLine` | `newsserver/ucspi-tcp-0.88/tcprules.c:119-124` | cuts off all newlines, blanks and tabs at the end |
| `TcpRules.Compiler.DoLine` | `newsserver/ucspi-tcp-0.88/tcprules.c:113-165` | every line is passed over, refused or added as its meaning says |
| `TcpRules.Compiler.Run` | `newsserver/ucspi-tcp-0.88/tcprules.c:109-168` | compiling succeeds exactly when every line has a meaning and the records fit; the file is then a database of exactly the records of the rules, in order |
| `TcpRules.CompiledLookUp` | `newsserver/ucspi-tcp-0.88/tcprules.c:53-88` | among the records of the rules a key occurs exactly when a line covers it, and the first data under it are those of the earliest such line |
| `TcpRules.DataOfConcat` | `newsserver/ucspi-tcp-0.88/cdb.c:120-136` | the data under a key in two lists of records are those of the one followed by those of the other |
| `Rules.Query.DoRule` | `newsserver/ucspi-tcp-0.88/rules.c:11-32` | delivers the data of the first record under the key in rules_name, or 0 |
| `Rules.Query.DoInfo` | `newsserver/ucspi-tcp-0.88/rules.c:38-52` | tries info@ip and then info@=host, when info and host are known |
| `Rules.Query.DoPrefixes` | `newsserver/ucspi-tcp-0.88/rules.c:65-72` | tries the prefixes of ip that end in a dot, longest first |
| `Rules.Query.DoSuffixes` | `newsserver/ucspi-tcp-0.88/rules.c:74-87` | tries "=" with the suffixes of host that begin with a dot, longest first, and then "=" alone |
| `Rules.Query.DoIt` | `newsserver/ucspi-tcp-0.88/rules.c:34-91` | delivers the data under the first key in the whole order of precedence that has a record, or 0 when none has |
| `Rules.Stages` | `newsserver/ucspi-tcp-0.88/rules.c:38-90` | the six stages tried one after the other are the order of precedence as a whole |
| `Rules.CompiledPick` | `newsserver/ucspi-tcp-0.88/rules.c:34-91` | looking through the records of the compiled rules picks what looking through the rules themselves picks |
| `Rules.CompileAndQuery` | `newsserver/ucspi-tcp-0.88/rules.c:93-100` | main result: for every rule text that compiles and every client, the query answers with the instruction of the earliest line that covers the first candidate key covered at all, and with 0 if there is none |
| `Wildmat.ScanClass` | `newsserver/noffle-1.0.1/src/wildmat.c:128-143` | scanning a closed bracket class ends at its bracket and says whether the character is in the class, with leading "]" or "-", ranges and "^" as in the declarative reading |
| `Wildmat.ScanBody` | `newsserver/noffle-1.0.1/src/wildmat.c:137-141` | the inner loop finds the character exactly when one of the single characters or ranges of the class body contains it |
| `Wildmat.StarStar` | `newsserver/noffle-1.0.1/src/wildmat.c:118-120` | two stars in a row match what one star matches |
| `Wildmat.DoMatch` | `newsserver/noffle-1.0.1/src/wildmat.c:96-153` | TRUE exactly when the pattern matches the text; ABORT implies that no suffix of the text matches either; FALSE is returned without any recursive call; at most text length + 1 calls are made in all |
| `Wildmat.DoStar` | `newsserver/noffle-1.0.1/src/wildmat.c:117-127` | the star loop answers TRUE or ABORT, never FALSE, and one more call than there are characters left is enough |
| `Wildmat.NoLaterSuffix` | `newsserver/noffle-1.0.1/src/wildmat.c:124-127` | when the rest of the text was tried without success and then aborted, no later suffix matches |
| `Wildmat.WldMatch` | `newsserver/noffle-1.0.1/src/wildmat.c:159-167` | the routine for users, with its short cut for a lone star, answers exactly whether the pattern matches |
| `DnsDomain.WireInjective` | `newsserver/ucspi-tcp-0.88/dns_domain.c:7-16` | different label sequences have different wire forms |
| `DnsDomain.DomainLength` | `newsserver/ucspi-tcp-0.88/dns_domain.c:7-16` | the walk stays inside the name and gives the length of its wire form, whatever bytes follow |
| `DnsDomain.CaseDiffb` | `newsserver/ucspi-tcp-0.88/case_diffb.c:3-18` | answers equal exactly when the two byte strings are equal after ASCII lower-casing |
| `DnsDomain.LowerWire` | `newsserver/ucspi-tcp-0.88/dns_domain.c:47-48` | lower-casing the wire form lower-cases the labels only, since length bytes lie below "A" |
| `DnsDomain.DomainEqual` | `newsserver/ucspi-tcp-0.88/dns_domain.c:40-49` | two names are equal exactly when they have the same labels after ASCII lower-casing |
| `DnsDomain.DomainSuffix` | `newsserver/ucspi-tcp-0.88/dns_domain.c:51-61` | finds the longest suffix of the name that equals the other name, at its position, or nothing when there is none |
| `DnsPacket.GetName` | `newsserver/ucspi-tcp-0.88/dns_packet.c:35-77` | ends on every packet, pointer cycles included; succeeds exactly when the name decompresses within 255 bytes and fewer than 1000 reads; the result is then the wire form of the decompressed labels, and the end position that of the skip routine |
| `DnsPacket.LimitedExact` | `newsserver/ucspi-tcp-0.88/dns_packet.c:45-67` | what the decoder accepts is a name by section 4.1.4 of RFC 1035 with labels of 1 to 63 bytes and at most 255 bytes in all, read with fewer than 1000 byte reads, and everything of that kind is accepted |
| `DnsPacket.BudgetedIs` | `newsserver/ucspi-tcp-0.88/dns_packet.c:45-67` | counting reads instead of steps changes nothing but the bound |
| `DnsPacket.BudgetedSound` | `newsserver/ucspi-tcp-0.88/dns_packet.c:45-67` | what is read within a budget of reads is the decompressed name |
| `DnsPacket.MoreFuel` | `newsserver/ucspi-tcp-0.88/dns_packet.c:54-61` | the decompressed name does not depend on how many steps are allowed |
| `DnsPacket.SkipName` | `newsserver/ucspi-tcp-0.88/dns_packet.c:18-33` | the skip loop finds the end of the name at the position, or fails |
| `DnsPacket.SkipSucceeds` | `newsserver/ucspi-tcp-0.88/dns_packet.c:18-33` | wherever a name can be decompressed, skipping it succeeds and ends inside the packet |
| `DnsPacket.PacketCopy` | `newsserver/ucspi-tcp-0.88/dns_packet.c:8-16` | copies bytes exactly when all of them lie inside the packet |
| `DnsText.ReadChar` | `newsserver/ucspi-tcp-0.88/dns_dfd.c:30-46` | one character with its escape of one to three octal digits is read as the token it stands for; a backslash at the end stops the reading |
| `DnsText.Flush` | `newsserver/ucspi-tcp-0.88/dns_dfd.c:21-27` | a complete label goes to the name with its length in front, or the name is refused when it would pass 255 bytes |
| `DnsText.Finish` | `newsserver/ucspi-tcp-0.88/dns_dfd.c:51-69` | the last label and the root are added exactly when the whole name fits |
| `DnsText.FromDot` | `newsserver/ucspi-tcp-0.88/dns_dfd.c:6-69` | every text is turned into the wire form of the labels it denotes, and is refused exactly when these are no legal name |
| `DnsText.TodotCat` | `newsserver/ucspi-tcp-0.88/dns_dtda.c:4-35` | appends the printed form of the name, whatever stands behind the name in memory |
| `DnsText.AppendLabel` | `newsserver/ucspi-tcp-0.88/dns_dtda.c:15-31` | the bytes of one label are printed in order, letters in lower case and other bytes as octal escapes |
| `DnsText.ReadPrint` | `newsserver/ucspi-tcp-0.88/dns_dtda.c:11-34` | the printed form of any labels denotes these labels in lower case |
| `DnsText.LabelsOfPrint` | `newsserver/ucspi-tcp-0.88/dns_dtda.c:14-34` | the dots put between labels, and no others, separate labels for the reader |
| `DnsText.PrintThenRead` | `newsserver/ucspi-tcp-0.88/dns_dfd.c:6-69` | main result: parsing a printed name gives the name in lower case, for every legal name, any byte values and the root included |
| `DnsTransmit.ServerWantsTcp` | `newsserver/ucspi-tcp-0.88/dns_transmit.c:9-16` | says yes exactly for packets that are cut off in the header or marked as truncated |
| `DnsTransmit.ServerFailed` | `newsserver/ucspi-tcp-0.88/dns_transmit.c:18-28` | says no exactly when the header is complete and the response code is 0 or 3 |
| `DnsTransmit.Irrelevant` | `newsserver/ucspi-tcp-0.88/dns_transmit.c:30-51` | lets exactly the packets through that repeat the id, announce one question, and ask for the same name up to case, the same type and class IN |
| `DnsTransmit.BuildQuery` | `newsserver/ucspi-tcp-0.88/dns_transmit.c:206-210` | the query has its length in front, one question in the header and the name, type and class asked for |
| `DnsTransmit.Transmit.OpenSocket` | `newsserver/ucspi-tcp-0.88/dns_transmit.c:105-110` | a new socket is held, or everything is given back |
| `DnsTransmit.Transmit.ThisUdp` | `newsserver/ucspi-tcp-0.88/dns_transmit.c:95-131` | goes on at the current server and round: either a query is on its way, with one more attempt later in the order than all before, or nothing is held any more, and then the system refused a socket or every server with an address has been tried in all rounds |
| `DnsTransmit.Transmit.ThisTcp` | `newsserver/ucspi-tcp-0.88/dns_transmit.c:145-180` | the same by TCP, with every server tried once |
| `DnsTransmit.Transmit.Start` | `newsserver/ucspi-tcp-0.88/dns_transmit.c:194-220` | 0 leaves socket and query held and the question recorded; -1 leaves nothing held, after a refusal by the system or after all servers were tried |
| `DnsTransmit.Transmit.UdpAnswer` | `newsserver/ucspi-tcp-0.88/dns_transmit.c:268-281` | a packet is handed over exactly if it answers the query (memory provided); an irrelevant one changes nothing at all, and any other leads to a later attempt or the end |
| `DnsTransmit.Transmit.TcpAnswer` | `newsserver/ucspi-tcp-0.88/dns_transmit.c:354-360` | a packet received by TCP is handed over exactly if it answers the query |
| `DnsTransmit.Transmit.Get` | `newsserver/ucspi-tcp-0.88/dns_transmit.c:239-364` | one event: 0 keeps socket and query, 1 leaves only a packet that answers the query, -1 leaves nothing; when the time is up it moves on to a later attempt or ends, and as long as nothing happens it changes nothing at all |
| `DnsTransmit.AttemptsBounded` | `newsserver/ucspi-tcp-0.88/dns_transmit.c:101-128` | attempts that always move on in the order of phase, round and server are at most 64 by UDP and 16 by TCP |
| `DnsTransmit.AnswerNamesAttempt` | `newsserver/ucspi-tcp-0.88/dns_transmit.c:36-37` | whatever answers a query that carries the id of an attempt carries that id itself |
| `DnsTransmit.Run` | `newsserver/ucspi-tcp-0.88/dns_transmit.c:194-364` | main result: over a start and any events, what is held fits the last result, at most 64 UDP and 16 TCP attempts are made, a packet handed back carries the id that was put into the query of the last attempt and the name, type and class asked for, without truncation mark and with response code 0 or 3, and failure is reported only after the system refused something or every server with an address was tried in all UDP rounds or by TCP |
| `Buffer.Device.Write` | `newsserver/ucspi-tcp-0.88/buffer_put.c:11-15` | stands for op: accepts a nonempty beginning of what it is given, or fails, perhaps interrupted, as an arbitrary script says |
| `Buffer.Device.Read` | `newsserver/ucspi-tcp-0.88/buffer_get.c:10-12` | stands for op: delivers some of the input, nothing at its end, or fails, perhaps interrupted, as an arbitrary script says |
| `Buffer.Buf.AllWrite` | `newsserver/ucspi-tcp-0.88/buffer_put.c:6-21` | succeeds exactly when everything was written, and always if no call fails; in any case a beginning was written, without gaps or repeats |
| `Buffer.Buf.Flush` | `newsserver/ucspi-tcp-0.88/buffer_put.c:23-31` | empties the buffer; succeeds exactly when the device has everything put so far |
| `Buffer.Buf.PutAlign` | `newsserver/ucspi-tcp-0.88/buffer_put.c:33-45` | on success accepted bytes followed by buffered bytes are what they were, followed by the new bytes; on failure the device has a beginning of that |
| `Buffer.Buf.FillUp` | `newsserver/ucspi-tcp-0.88/buffer_put.c:37-42` | one round fills the buffer to its end and writes all of it, so that exactly the bytes that did not fit are left |
| `Buffer.Buf.Put` | `newsserver/ucspi-tcp-0.88/buffer_put.c:47-67` | the same promise for put, which writes large pieces directly |
| `Buffer.Buf.MakeRoom` | `newsserver/ucspi-tcp-0.88/buffer_put.c:52-64` | when the new bytes do not fit, the buffer is flushed and large pieces go out directly, until the rest fits |
| `Buffer.Buf.PutFlush` | `newsserver/ucspi-tcp-0.88/buffer_put.c:69-73` | succeeds exactly when the device has everything put and the new bytes |
| `Buffer.Buf.PutC` | `newsserver/ucspi-tcp-0.88/buffer.h:26-30` | the same promise for the macro that puts one byte |
| `Buffer.RunOutput` | `newsserver/ucspi-tcp-0.88/buffer_put.c:23-73` | any mix of put, putalign, putflush, flush and single bytes: without an error, bytes accepted followed by bytes buffered are everything put; at all times the device has a beginning of everything put |
| `Buffer.SentGrows` | `newsserver/ucspi-tcp-0.88/buffer_put.c:23-73` | what the first operations send is a beginning of what all of them send |
| `Buffer.Buf.OneRead` | `newsserver/ucspi-tcp-0.88/buffer_get.c:5-14` | an interrupted read is tried again; the result is what the device delivered |
| `Buffer.Buf.CopyUp` | `newsserver/ucspi-tcp-0.88/byte_cr.c:3-16` | copying from the right end moves the bytes even when source and target overlap |
| `Buffer.Buf.Feed` | `newsserver/ucspi-tcp-0.88/buffer_get.c:25-36` | the bytes waiting grow by exactly the bytes taken from the device, moved to the right end of the buffer |
| `Buffer.Buf.GetThis` | `newsserver/ucspi-tcp-0.88/buffer_get.c:16-23` | bytes delivered followed by bytes waiting are the bytes that were waiting |
| `Buffer.Buf.Get` | `newsserver/ucspi-tcp-0.88/buffer_get.c:38-56` | for get and bget: bytes delivered followed by bytes waiting are those waiting before and those taken from the device, in order |
| `Buffer.Buf.Seek` | `newsserver/ucspi-tcp-0.88/buffer_get.c:63-67` | takes exactly the first bytes that wait |
| `Buffer.RunInput` | `newsserver/ucspi-tcp-0.88/buffer_get.c:16-67` | any mix of get, bget, feed and seek: bytes delivered followed by bytes waiting are exactly what was taken from the device, and with what is still to come they are the whole input, without gaps or repeats |
| `CrFilters.DelAdd` | `newsserver/ucspi-tcp-0.88/delcr.c:22-35` | delcr undoes addcr on every byte string |
| `CrFilters.DelAddState` | `newsserver/ucspi-tcp-0.88/delcr.c:22-35` | after the output of addcr, delcr has given back the text up to a CR at its end that it still holds |
| `CrFilters.DelCrMeans` | `newsserver/ucspi-tcp-0.88/delcr.c:11-36` | the state machine of delcr removes exactly the CRs that stand directly before an LF |
| `CrFilters.DelIsUnpair` | `newsserver/ucspi-tcp-0.88/delcr.c:22-35` | the same from any state on |
| `CrFilters.FixPairs` | `newsserver/ucspi-tcp-0.88/fixcrio.c:84-91` | the output of fixcrio has a CR before every LF and is at most twice as long as the input |
| `CrFilters.FixPaired` | `newsserver/ucspi-tcp-0.88/fixcrio.c:84-91` | fixcrio changes nothing in a text that has a CR before every LF |
| `CrFilters.FixTwice` | `newsserver/ucspi-tcp-0.88/fixcrio.c:84-91` | fixcrio is idempotent |
| `CrFilters.DelFix` | `newsserver/ucspi-tcp-0.88/fixcrio.c:84-91` | delcr leaves of the fixed text what it leaves of the text itself |
| `CrFilters.AddChunk` | `newsserver/ucspi-tcp-0.88/addcr.c:16-20` | one chunk of input continues the output as if there had been no cut between chunks |
| `CrFilters.DelChunk` | `newsserver/ucspi-tcp-0.88/delcr.c:22-35` | the same for delcr, with the CR held back across the cut |
| `CrFilters.Feed0` | `newsserver/ucspi-tcp-0.88/buffer_0.c:4-8` | reading standard input first empties the output buffer, so that everything put is written whenever a read succeeds |
| `CrFilters.Addcr` | `newsserver/ucspi-tcp-0.88/addcr.c:4-22` | for every input, every cutting of it and every script of the devices: it exits with 0, or with 111 only after a failed call; after 0 the output is the whole input with a CR before each LF if and only if no write has failed; when the only failing write happens while the output of the first chunk is put, it does exit with 0 |
| `CrFilters.Delcr` | `newsserver/ucspi-tcp-0.88/delcr.c:4-37` | the same for delcr, which exits with 0 although the write of a lone CR at its end has failed |
| `CrFilters.LosingAddcr` | `newsserver/ucspi-tcp-0.88/addcr.c:8-22` | a run of addcr that ends with exit code 0 and an output other than the input with its CRs: line ends that come to more than 8192 bytes, and a first write that fails |
| `CrFilters.LosingDelcr` | `newsserver/ucspi-tcp-0.88/delcr.c:11-36` | a run of delcr that ends with exit code 0 and has not written its output |
| `CrFilters.Pump.Readable` | `newsserver/ucspi-tcp-0.88/fixcrio.c:74-93` | a read of up to 256 bytes fits the 512 of the buffer after fixing, and continues the fixed text across reads |
| `CrFilters.Pump.Take` | `newsserver/ucspi-tcp-0.88/fixcrio.c:84-91` | one byte adds one or two bytes, and sent and buffered bytes stay the fixed form of what was received |
| `CrFilters.Pump.Writable` | `newsserver/ucspi-tcp-0.88/fixcrio.c:95-100` | a short write moves on inside the buffer without losing or repeating bytes |
| `CrFilters.PumpMeans` | `newsserver/ucspi-tcp-0.88/fixcrio.c:74-123` | whatever the pump is doing, a beginning of the fixed input has been sent, and all of it when nothing waits |
| `CrFilters.RunPump` | `newsserver/ucspi-tcp-0.88/fixcrio.c:74-123` | over any sequence of readable and writable events, with reads cut anywhere, short writes and errors: what was sent is a beginning of the fixed form of everything that arrived, and all of it when nothing waits; delcr finds in it what it finds in the input |
| `Content.Group.App` | `newsserver/noffle-1.0.1/src/content.c:43-62` | the next number goes to the new overview, and position and number stay in step |
| `Content.Group.Delete` | `newsserver/noffle-1.0.1/src/content.c:71-81` | exactly a live number inside the range is taken out; all other positions stay |
| `Content.Group.Extend` | `newsserver/noffle-1.0.1/src/content.c:102-114` | the list is filled up with empty positions, and its last number with it |
| `Content.Group.SetupEmpty` | `newsserver/noffle-1.0.1/src/content.c:94-100` | an empty group goes on behind its last recorded number |
| `Content.Group.Read` | `newsserver/noffle-1.0.1/src/content.c:118-179` | the overviews of the file, and nothing else, stand at their numbers, and the list reaches up to the last number recorded for the group |
| `Content.Group.LoadLine` | `newsserver/noffle-1.0.1/src/content.c:146-162` | each line lands at its number with empty positions for the numbers between |
| `Content.Group.CatchUp` | `newsserver/noffle-1.0.1/src/content.c:165-178` | numbers that were used but are not in the file any more count as used |
| `Content.Group.WriteLines` | `newsserver/noffle-1.0.1/src/content.c:198-232` | writes the overviews that are kept, in order, up to the first failure |
| `Content.Group.Write` | `newsserver/noffle-1.0.1/src/content.c:181-244` | the file holds the kept overviews that could be written, or is gone; no number logged before is logged for another article |
| `Content.KeptExactly` | `newsserver/noffle-1.0.1/src/content.c:200-216` | every overview that is not a general info is kept |
| `Content.Group.GenPseudo` | `newsserver/noffle-1.0.1/src/pseudo.c:206-213` | a pseudo article gets the next number, and the group learns it |
| `Content.Group.Post` | `newsserver/noffle-1.0.1/src/post.c:122-146` | an accepted article gets the number after the last one, which is the only number given out; when the file can be written, it holds the old articles and this one |
| `Content.Group.Cancel` | `newsserver/noffle-1.0.1/src/control.c:59-63` | gives out no number and keeps the last one recorded; when the file can be written, it holds all other articles |
| `Content.Group.Expire` | `newsserver/noffle-1.0.1/src/noffle.c:212-243` | when the file can be written, it holds the articles that are still in the database and the pseudo article, if there is one |
| `Content.Group.Fetch` | `newsserver/noffle-1.0.1/src/fetch.c:75-129` | fetched articles, with a pseudo article in front if there is one, get consecutive numbers behind the last one; when the file can be written, it holds the old ones and these |
| `Content.Group.Select` | `newsserver/noffle-1.0.1/src/server.c:313-327` | showing a group gives out a number only if a pseudo article is stored |
| `Content.LoggedKeeps` | `newsserver/noffle-1.0.1/src/content.c:198-232` | writing lines in ascending order, each of them new or known, only appends to the log, which stays in strictly ascending order of numbers |
| `Content.OneNew` | `newsserver/noffle-1.0.1/src/content.c:198-232` | when all but the last article came from the file, writing gives out at most one number |
| `Content.NothingNew` | `newsserver/noffle-1.0.1/src/content.c:198-232` | when every article came from the file, writing gives out no number |
| `Content.NothingSkipped` | `newsserver/noffle-1.0.1/src/content.c:198-232` | an article that is not written has a number above all that are |
| `Content.KeptFrom` | `newsserver/noffle-1.0.1/src/content.c:198-232` | what is kept carries the number of its position, in ascending order |
| `Content.RunSessions` | `newsserver/noffle-1.0.1/src/content.c:118-244` | main result: the log takes up every pair of number and article ever written; over any run of post, cancel, expire, fetch and select sessions, with failing writes and removed overview files, it grows in strictly ascending order of numbers, so that a number stands for one article for ever, and every article stored stands in it |
| `Pieces.OfConcat` | `newsserver/noffle-1.0.1/src/util.c:163-177` | two strings that no word crosses have the words of the one and then those of the other |
| `Header.SearchBreakPos` | `newsserver/noffle-1.0.1/src/database.c:345-371` | the break is at the end if everything fits, else at the last run of blanks that begins within the wanted length, else behind the first word |
| `Header.BreakUnique` | `newsserver/noffle-1.0.1/src/database.c:345-371` | a line can be broken in one such way only |
| `Header.AppendPiece` | `newsserver/noffle-1.0.1/src/database.c:395-407` | one line is appended and strictly less of the value is left, so that the loop ends |
| `Header.AppendLongHeader` | `newsserver/noffle-1.0.1/src/database.c:373-408` | appends the name, a blank and the value folded line by line |
| `Header.FoldWords` | `newsserver/noffle-1.0.1/src/database.c:383-407` | folding keeps the words of the value and their order |
| `Header.FoldFits` | `newsserver/noffle-1.0.1/src/database.c:384-407` | every line stays within its wanted length or is a single word |
| `Header.LineLength` | `newsserver/noffle-1.0.1/src/database.c:376-407` | no physical line, name included, is longer than 78 characters unless it carries no text of the value or a single word of it |
| `Header.FoldShape` | `newsserver/noffle-1.0.1/src/database.c:392-407` | only the last line can be empty, and only behind a value that ends with a blank |
| `Header.GetLn` | `newsserver/noffle-1.0.1/src/util.c:66-94` | delivers the line up to the next newline and the position behind it, nothing when there is none, and cuts a line that fills the buffer |
| `Header.StripWhiteSpace` | `newsserver/noffle-1.0.1/src/util.c:163-177` | leaves the string without blanks at both ends in place; only when the string is all blanks does it need a character other than a blank in front of it |
| `Header.GetHeaderLn` | `newsserver/noffle-1.0.1/src/util.c:118-148` | puts a header line and the lines that go on with it together, and leaves a line of blanks unread; only for such a line does the character in front of the buffer matter |
| `Header.UnfoldPieces` | `newsserver/noffle-1.0.1/src/util.c:124-145` | reading folded lines gives their words, up to an empty last line |
| `Header.FoldThenRead` | `newsserver/noffle-1.0.1/src/util.c:118-148` | reading a folded header gives the words of name and value; what is left is the text behind it, with an empty last line in front if folding left one |
| `Header.NoEmptyLastLine` | `newsserver/noffle-1.0.1/src/database.c:392-407` | a value that does not end with a blank leaves no empty last line |
| `Header.EmptyLastLineExactly` | `newsserver/noffle-1.0.1/src/database.c:392-407` | an empty last line is left if and only if the value ends with blanks, is not all blanks, and the blanks do not fit behind the last line of the rest |
| `Header.TrailingBlank` | `newsserver/noffle-1.0.1/src/database.c:392-407` | a word of eighty characters followed by a blank does leave one |
| `Header.WriteThenRead` | `newsserver/noffle-1.0.1/src/database.c:373-408` | main result: a header written behind any text and read again gives back its words, and the reading stops exactly behind it if and only if the blanks at the end of the value fit behind the last line of the rest, as they do for a value without such blanks |
| `ItemList.Cut` | `newsserver/noffle-1.0.1/src/itemlist.c:55-82` | the array holds each item with an end of string behind it and a mark for every other separator, with a final empty string, and the count is the number of items |
| `ItemList.ItemList.constructor` | `newsserver/noffle-1.0.1/src/itemlist.c:33-84` | a new list stands at its beginning, cut and counted |
| `ItemList.ItemList.Count` | `newsserver/noffle-1.0.1/src/itemlist.c:124-128` | the number of maximal nonempty pieces without separators |
| `ItemList.ItemList.Next` | `newsserver/noffle-1.0.1/src/itemlist.c:105-121` | delivers the next item of the walk, or nothing at its end, with all reads inside the array |
| `ItemList.ItemList.First` | `newsserver/noffle-1.0.1/src/itemlist.c:97-102` | starts the walk again |
| `ItemList.DeliveredExactly` | `newsserver/noffle-1.0.1/src/itemlist.c:113-117` | the walk delivers exactly the items if and only if no item begins with the character 1 that marks separators |
| `ItemList.MarkedItems` | `newsserver/noffle-1.0.1/src/itemlist.c:23-23` | two lists that are walked wrongly: one item loses its first character, one is missed |
| `ItemList.Enumerate` | `newsserver/noffle-1.0.1/src/itemlist.c:33-121` | main result: building and walking a list gives the count of the maximal separator-free pieces, and these pieces in order if and only if none begins with character 1 |
| `Protocol.PutTxtLn` | `newsserver/noffle-1.0.1/src/protocol.c:117-130` | writes the line with a second dot before a leading one and CR LF behind it, and succeeds exactly when all of it went out |
| `Protocol.PutEndOfTxt` | `newsserver/noffle-1.0.1/src/protocol.c:132-137` | writes the line with a single dot |
| `Protocol.PutTxtBuf` | `newsserver/noffle-1.0.1/src/protocol.c:143-175` | writes the stuffed lines of the text, an overlong line raw in pieces, and succeeds exactly when all of it went out |
| `Protocol.SentLine` | `newsserver/noffle-1.0.1/src/protocol.c:151-172` | a line that fits the line buffer goes out stuffed and once |
| `Protocol.SentRaw` | `newsserver/noffle-1.0.1/src/protocol.c:161-169` | a longer line goes out with its beginning raw |
| `Protocol.GetLn` | `newsserver/noffle-1.0.1/src/protocol.c:74-91` | takes at most 2047 characters up to a newline, and cuts off the newline and one CR before it in place |
| `Protocol.GetTxtLn` | `newsserver/noffle-1.0.1/src/protocol.c:93-115` | delivers the line without a stuffed dot, stops at a single dot, and reports an error exactly when nothing could be read |
| `Protocol.ReadFitting` | `newsserver/noffle-1.0.1/src/protocol.c:93-115` | a stuffed line that fits one read is read back as the line, CRs at its end included |
| `Protocol.ReadCut` | `newsserver/noffle-1.0.1/src/protocol.c:74-91` | a line whose end does not fit is read as something else, or leaves its end as an empty line |
| `Protocol.NoShift` | `newsserver/noffle-1.0.1/src/protocol.c:93-115` | an empty line too many is never made up for by the lines behind it |
| `Protocol.RoundTrip` | `newsserver/noffle-1.0.1/src/protocol.c:93-175` | reading what was written for lines gives these lines and stops right behind the end mark if and only if every line fits one read |
| `Protocol.GetTxt` | `newsserver/noffle-1.0.1/src/protocol.c:93-115` | reading until it stops collects the lines up to the end mark; when the k-th read comes too late it reports an error and has delivered exactly the lines before |
| `Protocol.Transfer` | `newsserver/noffle-1.0.1/src/protocol.c:93-175` | main result: a text sent and read on the other side is the same text, leading dots and trailing CRs included, with what follows it untouched, if and only if every line fits and every read is timely |
| `Safe.Permutation` | `config/polizei/bullencode/safe.c:75-92` | the box is a permutation of the bytes: every byte stands at exactly one place |
| `Safe.BackBox` | `config/polizei/bullencode/safe.c:106-106` | the search always ends inside the box, at the one place of the byte |
| `Safe.IndexFits` | `config/polizei/bullencode/safe.c:101-101` | for messages short enough the key index computed in any round stays inside an int |
| `Safe.Encrypt` | `config/polizei/bullencode/safe.c:94-104` | every byte goes through sixteen rounds with the seed chained up to it; nothing behind the message is written, even when both arrays are the same |
| `Safe.Decrypt` | `config/polizei/bullencode/safe.c:107-117` | every byte goes through the inverse rounds in reverse order with the same chain of seeds |
| `Safe.UnmixMixed` | `config/polizei/bullencode/safe.c:100-115` | undoing the last rounds leaves the byte as it was before them |
| `Safe.MixUnmixed` | `config/polizei/bullencode/safe.c:100-115` | redoing rounds that were undone leads back |
| `Safe.RoundTrip` | `config/polizei/bullencode/safe.c:94-117` | decryption inverts encryption and encryption inverts decryption, for every key table and every message |
| `Safe.Filter` | `config/polizei/bullencode/safe.c:127-136` | each block read is encrypted or decrypted on its own |
| `Safe.EncryptThenDecrypt` | `config/polizei/bullencode/safe.c:127-136` | main result: a stream cut into any blocks of at most 1000 bytes is given back by decrypting blocks of the same sizes |

## Left out

- Sockets, poll, processes, signals, alarms, file system calls and system logs: only their results appear, as parameters or arbitrary values.
- NNTP command dispatch, command lines, configuration, error tables, installers, and the shell, Perl and PHP files of the repository.
- Cdb.Reader.Read: models a mapped file; the branch of cdb_read that seeks and reads a descriptor is left out, as short reads are the subject of `Buffer`.
- CdbMake.Maker.Add: appends to a sequence of bytes; that a buffered write fails while a key or its data go out is left out, as failing writes are the subject of `Buffer`.
- CdbMake.Maker.WriteTable: leaves out failing writes in the same way.
- CdbMake.Maker.Finish: takes the output as a sequence of bytes with the directory put in front; buffering is the subject of `Buffer`, and a failing write or seek is left out.
- TcpRules.Compiler.Run: does not tell the exit codes 100 and 111 apart, and leaves out the temporary file and its renaming; lines are shorter than 2^31 bytes.
- Rules.CompileAndQuery: keys, addresses and names are shorter than 2^29 bytes, since the program would run out of memory before.
- Wildmat.DoMatch: asks for patterns whose bracket classes are closed; the source disclaims the others and reads behind them.
- Wildmat.WldMatch: asks for the same.
- DnsTransmit.Transmit.Get: does not say how much of the query has been sent by TCP, because the position is not set when a connection succeeds at once (`newsserver/ucspi-tcp-0.88/dns_transmit.c:166-168`); deadlines are a parameter that says whether time is up, and clock arithmetic and the random generator are left out.
- DnsTransmit.Transmit.OpenSocket: takes random ids and ports as arbitrary values, and nothing is said about their distribution.
- Buffer.Device.Write: stands for any `op` except one that accepts 0 bytes or is interrupted without end, with which the loops would not end.
- CrFilters.Pump.Readable: one of the two equal pumps is modelled; the poll loop around them and the closing of descriptors are left out.
- Content.RunSessions: the number of a general info is given back on purpose when the list is discarded, so only numbers of articles that reach the overview file are covered; a crash between writing the overviews and the group record, the deletion and re-creation of a group, overview files written by other programs, and the caches of the group and article databases are left out.
- Content.Group.Read: lines that cannot be parsed are left out.
- Header.FoldThenRead: name and value together are shorter than the 2048 characters of a line buffer, and the value holds no newline, as the article database stores it.
- Header.GetHeaderLn: asks for text that consists of whole lines, because the source goes on with an uninitialised buffer after an unterminated line. The character in front of the line buffer is a parameter; it matters only for a follow-on line of blanks, which must not be met with a blank there.
- Protocol.Transfer: text behind the last newline is not sent by the source and not part of the lines here; a line longer than the buffer is covered as one that does not come back.
- Safe.Encrypt: asks for messages on which the key index fits an int, as its overflow is undefined in C; the key table is arbitrary, so that the table of the program is one case; reading errors in the main loop are left out.
- The other ciphers and tools beside `safe.c`: `bullsafe.c`, whose decryption is a stub, and the daemon.
- The storage management of growing strings and of `DynStr`: both are sequences here.

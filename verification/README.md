# A verified model of libpcsc-cpp

The library talks APDUs to smart cards over PC/SC. This Dafny project models its transport and
file-reading stack, the transaction guard, and the smaller parts around them, and proves what
they promise. `dafny verify dfyconfig.toml` checks everything.

**The card** is an arbitrary deterministic machine (`Chain.Card`): any type of states, any answer to
any bytes. `transmitBytes` returns exactly when the chain of 61xx answers that its command starts
ends (`Chain.ChainEnds`, `Chain.FlatLoopExistsIff`), and its recursion goes down along the length of that
chain. Sending a command supposes no more of the card than that; reads and runs suppose that
all its chains end (`Chain.EndsChains`), which is so iff some measure of the card drops along each of
them. **A session** (`Sessions.Session`) is what the library's user can observe: the transaction
flag, the live guards, the transactions open in PC/SC, the card's state and the list of every raw
exchange with the depth it took place at. What PC/SC grants or refuses is a parameter. A thrown exception is an `Err`.

**The transport** (`Chain`, `SmartCard`): `transmitBytes` and `getMoreResponseData` call each other
around a `while`; they are proved to be one flat loop, in what they send, what they return and
what they throw. **Chaining** (`Chaining`): over an application that answers any command with any
data and any status, every way of cutting the answer into 61xx pieces gives the same data, and
the same response exactly when there is no status to lose: `getMoreResponseData` sets 9000
whatever the last status was, so a split answer with, say, 63C2 turns into success (`WarningIsLost`).
**Reading** (`FileRead`, `FileTheorems`, `Tiling`, `DerFiles`): a block-wise read returns exactly the
requested prefix of the file or throws, whatever the block size and the card's pieces; the exact
condition for returning is the one proved. What it sends is read off the recorded exchanges. With
a block length of 0 it need not end, and over a file of 256 bytes or more it does not. **Runs** (`Transactions`): no interleaving of guards,
refusals and commands lets an exchange happen outside a transaction. The flag does not count
guards, so after nested guards it can be down while one lives; it is up exactly while a guard lives,
all through a run, iff no guard is destroyed while another lives.

**Around it**: the TLV parser for driver features (`Features`, on 32-bit words), the enum
reflection of the vendored magic_enum with its dense shortcut (`EnumTables`) and paged hash switch
(`HashSwitch`), the scan of PC/SC's reader-name buffer (`ReaderNames`), the bitset
(`FlagSets`) and the path of a reader's state from PC/SC's word to a string and back
(`ReaderStatus`).

Module by module: `Wrappers`, `Bytes`, `Words`, `Numbers`, `Search` hold what the others share; `SmartCard.dfy` holds the
classes of SmartCard.cpp and the two functions of utils.cpp that read, as imperative code proved
against the functions of `Chain`, `Sessions` and `FileRead`; the lemmas are about those functions.
`hide` in a proof keeps definitions it does not need away from the solver.

Where the code does not do what a name suggests, the model follows the code: `has_duplicate` returns true when
there is *no* duplicate, and `readBinary`'s Le is the block
length modulo 256, so over a file a first block of more than 256 bytes always fails, while a
larger block length is harmless when no more than 256 bytes are read.

## Model

| member | source | states |
|---|---|---|
| Chain.ExchangesAreTheFlatLoop | src/SmartCard.cpp:227-242 | the mutual recursion is one flat loop: a list of exchanges is the one a command causes iff it starts with the command, goes on with GET RESPONSE xx after each 61xx, stops at the first other answer, and is what the card answers |
| Chain.ExchangesOnTheWire | src/SmartCard.cpp:227-242 | in bytes: the command is sent, then 00 C0 00 00 xx after every answer of at most 258 bytes ending in 61 xx, and nothing after any other |
| Chain.ThrowsIffSomeAnswerDoes | src/SmartCard.cpp:123-140 | transmitting throws iff some raw answer of the chain is an error, malformed or has a rejected status, and then what the last answer throws; what it returns never asks for more data (Chain.ResponseOfChain says which data and status it has) |
| Chain.AcceptedAnswers | src/SmartCard.cpp:192-225 | exactly the answers of 2 to 258 bytes with one of seven SW1 values get through, with their bytes kept |
| Chain.RejectedAnswers | src/SmartCard.cpp:123-225 | what is thrown otherwise: for a failed call, for more than 258 or fewer than two bytes, for 6C and for any other status, with its two bytes |
| Chain.FlatLoopExistsIff | src/SmartCard.cpp:123-140 | there is a flat loop that the card lets come to its end iff the command's chain of 61xx answers ends |
| Chain.ChainGetsShorter | src/SmartCard.cpp:233-235 | each GET RESPONSE leaves a chain shorter by one answer, so the recursion ends |
| Chain.EndsChainsIffRanked | src/SmartCard.cpp:227-242 | all chains of a card end iff some measure of its state and the command drops with every 61xx answer |
| Chain.AlwaysMoreNeverEnds | src/SmartCard.cpp:227-242 | the card that answers 6100 to everything gives 61xx however often it is asked |
| SmartCards.CardImpl.SCardTransmit | src/SmartCard.cpp:125-131 | one raw exchange: the card steps once and the exchange is recorded at the current depth |
| SmartCards.CardImpl.TransmitBytes | src/SmartCard.cpp:123-140 | for a command whose chain ends, whatever other commands do, result, card state and recorded exchanges are those of the flat loop |
| SmartCards.CardImpl.GetMoreResponseData | src/SmartCard.cpp:227-242 | sends 00 C0 00 00 and the announced length, appends what the rest of the chain brings, sets 9000, throws what it throws, and its loop makes exactly one pass |
| SmartCards.CardImpl.BeginTransaction | src/SmartCard.cpp:181 | one transaction more iff PC/SC grants it, else an error |
| SmartCards.CardImpl.EndTransaction | src/SmartCard.cpp:183 | one transaction less iff PC/SC grants it |
| SmartCards.SmartCard.Null | src/SmartCard.cpp:269 | the null object has no card, no transaction and no guards |
| SmartCards.SmartCard.BeginTransaction | src/SmartCard.cpp:272-276 | a live guard, the flag and a transaction, or an error with nothing changed; logic error on the null object |
| SmartCards.SmartCard.Transmit | src/SmartCard.cpp:283-291 | logic error without card or outside a transaction, with nothing sent; else the encoded command's exchanges |
| SmartCards.TransactionGuard.Make | src/SmartCard.cpp:245-250 | a transaction is asked for first; if it is granted the guard lives and the flag is up, if not an error comes out and nothing has changed |
| SmartCards.TransactionGuard.Destroy | src/SmartCard.cpp:252-260 | the flag goes down whatever PC/SC answers, and the guard is gone |
| SmartCards.ReadDataLengthFromAsn1 | src/utils.cpp:106-143 | the result of the header check on the four bytes read, and one READ BINARY sent |
| FileRead.HeaderCheck | src/utils.cpp:116-142 | which answers give which length and which error, byte by byte, for any card |
| SmartCards.ReadBinary | src/utils.cpp:145-174 | whenever the loop ends, the method over the card object returns, sends and throws what the loop on sessions does, null object and block length 0 included |
| FileRead.ZeroBlockMakesNoProgress | src/utils.cpp:152-157 | with block length 0 no number of passes gets any nearer the end, so the loop ends only by throwing |
| FileTheorems.ZeroBlockNeverEnds | src/utils.cpp:152-166 | with block length 0 and anything to read, readBinary never ends over any chaining card serving a file of 256 bytes or more |
| FileRead.PositiveBlockEnds | src/utils.cpp:152-166 | with a positive block length the loop ends within as many passes as bytes, where the recursive form of it does |
| Chaining.Drain | src/SmartCard.cpp:227-242 | however an answer is cut into pieces, the chain collects all its data in order, ends on its status, and leaves nothing pending |
| Chaining.TransmitToChaining | src/SmartCard.cpp:123-140 | transmitting to a chaining card gives the application's data, with 9000 if it was split, and its error if its status is rejected |
| Chaining.ChainingIsTransparentIff | src/SmartCard.cpp:240-241 | chained and unchained answers give the same response iff the answer fits in one piece and was not split, is rejected anyway, or has status 9000 |
| Chaining.WarningIsLost | src/SmartCard.cpp:235-241 | an answer under 63C2 sent in two pieces comes out as 9000, and sent in one as 63C2 |
| Chaining.DirectChains | src/SmartCard.cpp:135-139 | the card that never splits is a chaining card, so every theorem about those covers it |
| Chaining.SplitterChains | src/SmartCard.cpp:227-238 | cutting every answer of any application into pieces of any fixed size up to 256 makes a chaining card whose chains end |
| Chaining.SplitterPieces | src/SmartCard.cpp:229-235 | that card sends as many of the bytes left as fit its piece size, in order, and announces how many are left |
| FileTheorems.BlockOfFile | src/utils.cpp:159-165 | one block comes back full, with the file's bytes, exactly when Le can ask for it and the file holds it |
| FileTheorems.BlocksOfFile | src/utils.cpp:152-166 | the loop from any point either collects exactly the missing range or fewer bytes than it counts |
| FileTheorems.ReadBinaryIsExact | src/utils.cpp:145-174 | over any chaining card serving a file, with every block starting below 0x8000: returns iff length is 0, or the first block is at most 256 and the file is long enough; the result is the file's prefix |
| FileTheorems.BlocksAndChainsAreInvisible | src/utils.cpp:145-174 | two cards with the same file, chained in any two ways and read with any two block lengths up to 256, give the same bytes or both none |
| FileTheorems.EveryPieceAndBlockSize | src/utils.cpp:145-174 | for every file, piece size and block size up to 256, with every block starting below 0x8000, reading from the card that serves it in such pieces returns iff the file is long enough, and then its prefix |
| FileTheorems.FileServerServes | src/utils.cpp:150-163 | there is an application that serves any given file as the read theorem supposes |
| FileTheorems.ReadBinaryIsChainingBlind | src/utils.cpp:145-174 | for every application whose answers to READ BINARY fit a response, honest or not, and any block length, readBinary ends through chaining iff it ends without, with the same result |
| Tiling.SentForPasses | src/utils.cpp:152-163 | inside a transaction the READ BINARYs among the raw exchanges of the loop are those of its passes, in order, and every other exchange is a GET RESPONSE |
| Tiling.PassesTile | src/utils.cpp:152-161 | over any card, pass i asks for the block that starts where the i full blocks before it end, cut off at the end of the range |
| Tiling.BlocksTileTheFile | src/utils.cpp:145-174 | the READ BINARYs that readBinary sends are for consecutive blocks from 0, only the last may be shorter, P1-P2 is the offset modulo 0x10000 and Le the size modulo 0x100, nothing else but GET RESPONSE is sent, and if no pass throws there are ceil(length / block) of them |
| FileRead.BlocksInClosedForm | src/utils.cpp:152-157 | that number of blocks is (length + block - 1) / block, and the last starts at one less times the block length |
| Tiling.TopBitStaysClear | src/utils.cpp:159-160 | over any card, nothing that readBinary sends has the top bit of P1 set if no block starts at 0x8000 to 0xFFFF modulo 0x10000, and, when no pass throws, only then |
| Tiling.LowStartsIff | src/utils.cpp:152-160 | up to 0x10000 bytes no block starts there iff the last one starts below 0x8000 |
| Tiling.LoopOfPasses | src/utils.cpp:152-166 | the loop returns iff every pass does, and then all their data in order |
| Tiling.ReturnsIff | src/utils.cpp:145-174 | over any card, overlong answers included, readBinary returns iff every pass does and the bytes collected are as many as asked for; any other total is thrown |
| Tiling.ReturnsTheLength | src/utils.cpp:168-173 | over any card and any block length, what readBinary returns has the length asked for |
| Tiling.ShortReadsAreCaught | src/utils.cpp:168-171 | if no answer is longer than asked for, readBinary returns iff every block came back full |
| DerFiles.LengthOfFile | src/utils.cpp:106-143 | a file of four bytes or more gets a length iff it starts with 30 82 and header plus content is within 128 to 0x0F00 |
| DerFiles.ReadsTheWholeObject | src/utils.cpp:106-174 | the header gives a length iff the content has 124 to 0x0EFC bytes; then the read returns exactly the DER object at the start of the file iff block length or object is at most 256, and nothing sent on the way, header included, has the top bit of P1 set |
| Transactions.ActionIsSafe | src/SmartCard.cpp:245-301 | every action keeps the flag below a live guard and every guard below a transaction, takes back no exchange, and exchanges nothing when the flag is down |
| Transactions.Perform | src/SmartCard.cpp:245-291 | the objects do what each action of a run says: same flag, guards, depth, card state and exchanges |
| Transactions.Connect | src/SmartCard.cpp:262-267 | a connection starts without flag, guards, transactions and exchanges |
| Transactions.EveryExchangeIsInATransaction | src/SmartCard.cpp:283-291 | in every run from a fresh connection every raw exchange, GET RESPONSE and file blocks included, happens at depth 1 or more |
| Transactions.FlagMeansGuardMadeLast | src/SmartCard.cpp:245-260 | in every run the flag is up iff the last guard made or destroyed was made |
| Transactions.NestedGuardsDropTheFlag | src/SmartCard.cpp:252-260 | two guards made and one destroyed leave a live guard and an open transaction, yet transmit refuses |
| Transactions.FlagIsExactIff | src/SmartCard.cpp:245-260 | at every point of a run the flag is up iff a guard lives, exactly for the runs in which no guard is destroyed while another lives |
| Bytes.WordOfHalves | src/utils.cpp:39-46 | HIBYTE and LOBYTE put back together are the value modulo 0x10000 |
| Bytes.WordInjective | include/pcsc-cpp/pcsc-cpp.hpp:53-57 | a status word determines both its bytes |
| Apdu.CommandApdu.ToBytes | include/pcsc-cpp/pcsc-cpp.hpp:183-204 | the bytes pushed one after the other are the command's encoding, and the same inputs throw |
| Apdu.EncodesIff | include/pcsc-cpp/pcsc-cpp.hpp:183-204 | a command encodes iff it has at most 255 data bytes and Le unused or at most 256, and into which bytes |
| Apdu.ResponseApdu.ToBytes | include/pcsc-cpp/pcsc-cpp.hpp:99-108 | the data followed by the status bytes |
| Apdu.CommandRoundTrip | include/pcsc-cpp/pcsc-cpp.hpp:145-204 | every command with at most 255 data bytes and Le unused or at most 256 encodes, and decoding gives it back, up to Le 256 being sent as 0 |
| Apdu.EncodingInjective | include/pcsc-cpp/pcsc-cpp.hpp:183-204 | two commands have one encoding iff they are one command on the wire, without being told whether Le is set |
| Apdu.BytesRoundTrip | include/pcsc-cpp/pcsc-cpp.hpp:145-181 | which bytes decode, and that encoding gives them back iff byte 4 is the length of the data when there is any |
| Apdu.DecodedFields | include/pcsc-cpp/pcsc-cpp.hpp:145-181 | which bytes become header, data and Le, whatever the length byte says, and which inputs throw |
| Apdu.ResponseRoundTrip | include/pcsc-cpp/pcsc-cpp.hpp:88-108 | a response and its bytes determine each other; fewer than two bytes are refused |
| Apdu.IsOKIff | include/pcsc-cpp/pcsc-cpp.hpp:112 | a response is a success iff its bytes end in 90 00 |
| Features.FeatureTable.constructor | src/SmartCard.cpp:85-101 | the nested loops consume the whole reply and enter its records in order; a failed request leaves the table empty |
| Features.DecodedIsBigEndian | src/SmartCard.cpp:92-95 | accumulating bytes and swapping decodes four bytes big-endian and fewer left-justified |
| Features.DecodedNumber | src/SmartCard.cpp:92-95 | as a number: the bytes, zero bytes after them up to four, are its digits in base 256, the first one highest |
| Numbers.AppendIs | src/SmartCard.cpp:92-95 | a byte put below a word is added to 256 times its value |
| Words.SwapIsBigEndian | src/SmartCard.cpp:95 | swapping four bytes collected lowest first gives them highest first |
| Features.SerializeThenParse | src/SmartCard.cpp:90-96 | parsing serialized records gives the records |
| Features.FirstRecord | src/SmartCard.cpp:90-93 | a record is a tag byte, a length byte and the value, and the rest follows |
| Features.ParseThenSerialize | src/SmartCard.cpp:90-96 | serializing parsed bytes gives the bytes |
| Features.LastRecordWins | src/SmartCard.cpp:95 | a tag's entry is the value of its last record |
| Features.OtherTagsStay | src/SmartCard.cpp:95 | a tag without a record is neither added nor changed |
| EnumTables.ComputeLog2 | include/magic_enum/magic_enum.hpp:392-403 | the shifting loop computes the logarithm |
| EnumTables.Log2OfPow2 | include/magic_enum/magic_enum.hpp:392-403 | the logarithm undoes powers of two |
| EnumTables.Log2IsLogarithm | include/magic_enum/magic_enum.hpp:392-403 | for any value, the exponent of the power of two at or below it |
| EnumTables.Pow2Adds | include/magic_enum/magic_enum.hpp:392-403 | the powers are those of two: 1, 2, and products for sums of exponents |
| EnumTables.ValidCount | include/magic_enum/magic_enum.hpp:681-710 | marks exactly the named slots, 256 at a time, and counts them |
| EnumTables.Values | include/magic_enum/magic_enum.hpp:712-735 | the compaction loop stays in the range, ends, and gives the named values in order |
| EnumTables.TableIsTheNamedValues | include/magic_enum/magic_enum.hpp:712-746 | the table is strictly ascending and holds exactly the named values of the range |
| EnumTables.TableInPlainTerms | include/magic_enum/magic_enum.hpp:712-746 | a value is in the table iff it is named and within the range, or for flags a power of two whose bit is |
| EnumTables.DenseIsConsecutive | include/magic_enum/magic_enum.hpp:820-833 | not sparse means consecutive values, or consecutive bits for flags |
| EnumTables.SparseIff | include/magic_enum/magic_enum.hpp:820-833 | not sparse iff each value is the one after, or for flags twice, the one before |
| EnumTables.EnumValueIsTheTable | include/magic_enum/magic_enum.hpp:1146-1157 | arithmetic and table give the same value at every index |
| EnumTables.EnumIndex | include/magic_enum/magic_enum.hpp:1188-1217 | search and distance both give the position in the table, or nothing |
| EnumTables.EnumIndexHashed | include/magic_enum/magic_enum.hpp:1196-1201 | with hashing enabled the answer is still the position in the table |
| EnumTables.EnumCast | include/magic_enum/magic_enum.hpp:1285-1314 | an integer casts iff it is in the table, without hashing |
| EnumTables.EnumCastHashed | include/magic_enum/magic_enum.hpp:1293-1297 | with hashing enabled an integer still casts iff it is in the table |
| EnumTables.IndexAndValueUndoEachOther | include/magic_enum/magic_enum.hpp:1146-1217 | index and value undo each other, and a value has no index iff it is not in the table |
| EnumTables.IntervalIsDense | include/magic_enum/magic_enum.hpp:820-833 | enumerators without a gap are dense, with the distance from the first as index |
| EnumTables.NameIs | include/magic_enum/magic_enum.hpp:1250-1258 | a value in the table has the name at its place, any other the empty one |
| HashSwitch.CopyKeys | include/magic_enum/magic_enum.hpp:966-976 | the labels start with the hashes of the page |
| HashSwitch.CountUp | include/magic_enum/magic_enum.hpp:978-980 | then the values above the last key, until the labels are full or the type is exhausted |
| HashSwitch.FillGaps | include/magic_enum/magic_enum.hpp:982-990 | then the smallest values other than the keys the walk meets, for keys in any order, with the pointer and the running value never past the last key, so that no increment overflows |
| HashSwitch.CalculateCases | include/magic_enum/magic_enum.hpp:959-993 | the three blocks together, for any hashes of the type |
| HashSwitch.LabelsDifferIff | include/magic_enum/magic_enum.hpp:978-990 | for any hashes, the 256 labels are all different, the keys first, iff the hashes are different, none lies in what is counted up from the last, and, when that does not suffice, those below the values filled in come first in ascending order |
| HashSwitch.LabelsAreInTheType | include/magic_enum/magic_enum.hpp:978-990 | no label leaves the hash's type, whatever the hashes |
| HashSwitch.AscendingPageHasLabels | include/magic_enum/magic_enum.hpp:978-990 | for ascending hashes the labels are 256 different values, the keys first |
| HashSwitch.UnsortedPageCollides | include/magic_enum/magic_enum.hpp:978-980 | three names with hashes 7, 5 and 6 give a repeated label |
| HashSwitch.LowKeyOutOfOrderCollides | include/magic_enum/magic_enum.hpp:982-990 | hashes 1, 0 and 255 of an 8-bit type give a repeated label in the third block |
| HashSwitch.HasDuplicate | include/magic_enum/magic_enum.hpp:1015-1036 | returns true iff all hashes are different |
| HashSwitch.Insert | include/magic_enum/magic_enum.hpp:1023-1033 | the newest hash moves to its place in the sorted part, nothing lost, or an equal one is found |
| HashSwitch.PageDecides | include/magic_enum/magic_enum.hpp:1038-1088 | one page of the switch, dead labels and fall-through included, is one page of linear search |
| HashSwitch.SwitchIsLinearSearch | include/magic_enum/magic_enum.hpp:1060-1088 | the paged switch is linear search, for any table size, distinct hashes and valid labels |
| HashSwitch.SwitchWithCalculatedCases | include/magic_enum/magic_enum.hpp:1060-1088 | with the labels computed page by page the lookup is linear search, for every table whose switch statements compile |
| HashSwitch.AscendingPagesCompile | include/magic_enum/magic_enum.hpp:1060-1088 | they do for ascending hashes, such as the values of an enumeration |
| ReaderNames.StaysIffTerminated | src/listReaders.cpp:52-56 | the pointer walk stays in the buffer iff it is empty, starts or ends with a NUL, or holds two in a row |
| ReaderNames.NamesOfMultiString | src/listReaders.cpp:45-62 | from any names laid out as PC/SC does, with anything after, the walk reads those names in order |
| ReaderNames.NamesAreTheFront | src/listReaders.cpp:45-62 | from any buffer the walk does not leave, it reads exactly the names laid out at its front, up to the end or the first NUL where a name would start |
| ReaderNames.GetReaderNamePointerList | src/listReaders.cpp:45-62 | the pointers lie in the buffer, each just after the NUL of the name before, and point at the names, in order |
| ReaderNames.GetReaderStates | src/listReaders.cpp:64-76 | one state per name, in order, unaware |
| FlagSets.FlagSet.constructor | include/flag-set-cpp/flag_set.hpp:37 | the empty set |
| FlagSets.FlagSet.Of | include/flag-set-cpp/flag_set.hpp:39 | a singleton |
| FlagSets.FlagSet.AndAssignValue | include/flag-set-cpp/flag_set.hpp:43-49 | intersection with one flag |
| FlagSets.FlagSet.AndAssign | include/flag-set-cpp/flag_set.hpp:51-55 | intersection, also with itself |
| FlagSets.FlagSet.OrAssignValue | include/flag-set-cpp/flag_set.hpp:57-61 | one flag more |
| FlagSets.FlagSet.OrAssign | include/flag-set-cpp/flag_set.hpp:63-67 | union, also with itself |
| FlagSets.FlagSet.AndValue | include/flag-set-cpp/flag_set.hpp:70-77 | a new intersection with one flag; the assertion of at most one bit holds |
| FlagSets.FlagSet.OrValue | include/flag-set-cpp/flag_set.hpp:88-95 | a new set with one flag more; the assertion of at least one bit holds |
| FlagSets.FlagSet.Complement | include/flag-set-cpp/flag_set.hpp:105-111 | a new complement within the enumeration |
| FlagSets.FlagSet.FlipAll | include/flag-set-cpp/flag_set.hpp:136-140 | complement in place |
| FlagSets.FlagSet.Set | include/flag-set-cpp/flag_set.hpp:142-152 | one flag put in or taken out, the others kept |
| FlagSets.FlagSet.Flip | include/flag-set-cpp/flag_set.hpp:154-158 | one flag flipped, the others kept |
| FlagSets.FlagSet.Get | include/flag-set-cpp/flag_set.hpp:160 | membership |
| FlagSets.FlagSet.Count | include/flag-set-cpp/flag_set.hpp:122 | cardinality |
| FlagSets.FlagSet.Equals | include/flag-set-cpp/flag_set.hpp:118 | equality of sets |
| ReaderStatus.FlagSetFromReaderState | src/listReaders.cpp:86-115 | UNAWARE alone for a zero word, else exactly the states whose bit is set |
| ReaderStatus.FlagIsBit | src/listReaders.cpp:106-112 | state i is set iff its bit is in the word |
| ReaderStatus.WordOfFlags | src/listReaders.cpp:86-115 | for masks of one bit each the flags give back the word, restricted to those bits |
| ReaderStatus.AllBitsHave | src/listReaders.cpp:92-104 | those bits include every mask |
| ReaderStatus.PcscMasksAreMasks | src/listReaders.cpp:92-104 | PC/SC's state bits are the lowest eleven, in ascending order |
| ReaderStatus.StatusName | src/Reader.cpp:44 | the reflection finds each status under its own number |
| ReaderStatus.StatusString | src/Reader.cpp:37-52 | the pieces between commas are the names of exactly the set flags, each once, in the order of the enumeration |
| ReaderStatus.SplitOfAccumulate | src/Reader.cpp:48-51 | splitting at commas undoes the fold, for items that are not empty and have none |
| ReaderStatus.CommaBetween | src/Reader.cpp:48-51 | each further item goes after a comma, the first without one |
| ReaderStatus.StatusRoundTrip | src/listReaders.cpp:86-115 | the status string determines the flags and the word up to bits that stand for no state; UNAWARE is in it iff the word is zero |

## Left out

- SmartCards.CardImpl.GetMoreResponseData: the response passed by reference is an in-parameter and an out-parameter, because APDUs are values here; aliasing of the two is not modelled.
- SmartCards.CardImpl.TransmitBytes: has no result on an endless chain of 61xx answers, where by Chain.FlatLoopExistsIff there is none.
- SmartCards.ReadBinary: supposes that all chains of the card end, not only those of its own commands; and it is for reads that come to an end, which all do with a positive block length, because a read that never ends (FileTheorems.ZeroBlockNeverEnds) has no result to state.
- SmartCards.ReadDataLengthFromAsn1: requires the answer to hold the bytes the code indexes; shorter answers are undefined behaviour.
- FileTheorems.ReadBinaryIsExact: stops at blocks that start at 0x8000 or above, whose P1 addresses other files by short identifier; Tiling.BlocksTileTheFile, which has no such bound, says what is sent.
- FileTheorems.ReadBinaryIsChainingBlind: supposes answers to READ BINARY of at most 256 bytes, since a longer one cannot be sent in one piece at all.
- Features.FeatureTable.constructor: supposes well-formed records with values of at most four bytes, in at most 256 bytes; longer shifts are undefined. The host is little-endian.
- HashSwitch.CalculateCases: supposes a hash type of at least 256 values; in a smaller one there are not 256 labels.
- HashSwitch.SwitchWithCalculatedCases: supposes what the compiler checks, different hashes and different labels; HashSwitch.LabelsDifferIff is the exact condition for the latter.
- HashSwitch.SwitchIsLinearSearch: equality is the predicate; a custom predicate is not passed on to the second page by the source.
- EnumTables: enumerations over bool, the choice between flags and common by default, and integer widths (every value of the range fits the underlying type).
- ReaderStatus.StatusRoundTrip: PC/SC's masks are a parameter, one bit each; winscard.h is not part of this model, and ReaderStatus.PCSC_MASKS holds its values.
- PC/SC itself: connecting, status queries, handles, contexts and their release, and the classification of its error codes; a failed call is one error.
- `transmitCTL`, `readerHasPinPad` and the PIN pad structure: constant stores and foreign calls.
- `transmitApduWithExpectedResponse`, `bytes2hexstr` and error texts.
- `flag_set`'s two-set `&` and `|`, `set()`, `reset()` and stream output: a copy and an operation that is modelled, or constant.
- The CRC and secondary hashes, names taken from compiler output, and `enum_cast` from names: hashes and names are parameters.
- Wide-character builds, environment variables and multithreading.

# A verified model of the torrent engine's parsers, containers and protocols

This project models the parts of the application's native engine whose code is in the
repository: the JNI bridge the application wrote itself
(`android/libtorrent/jni/torrent_bridge.cpp`) and the template and inline code of the
libtorrent headers next to it. Each part has the code's own form (loops over positions,
classes whose methods update their fields) next to functions on values that say what the code
computes, and lemmas that say what it promises. `dafny verify dfyconfig.toml` checks all of it.

| file | what it holds |
|---|---|
| `Decimal.dfy` | decimal text: printing, `strtoll`, `atoi`, digit loops |
| `Bencode.dfy`, `BencodeIo.dfy`, `BencodeProofs.dfy`, `BencodeDictionaries.dfy`, `BencodeStrict.dfy`, `BencodeGrammar.dfy` | bencoding of entries: what is written and read, the stream loops, the inverse laws, the grammar of everything that is accepted and where the rest is refused, what becomes of dictionaries with any keys in any order, and which texts re-encode to themselves |
| `BridgeJson.dfy`, `JsonText.dfy`, `BridgeJsonProofs.dfy` | the bridge's JSON escaper and substring-searching field extractors, the texts of strings in JSON objects, and why a value can never pass for a field |
| `LinkLists.dfy` | intrusive swap-remove lists of torrents |
| `Words.dfy`, `Bitfield.dfy`, `BitfieldIterator.dfy` | bits of network-order words, the bitfield as a sequence of booleans, and its iterator |
| `I2pStream.dfy`, `I2pConnection.dfy` | the SAM command state machine and the one-at-a-time name lookup queue |
| `StorageHolder.dfy` | move-only owners of storages |
| `BigEndian.dfy`, `PeerMessages.dfy` | big-endian integers and the framing of peer messages |
| `PiecePriority.dfy` | the pick order of pieces |
| `Wrappers.dfy`, `CStrings.dfy` | the optional value; strings up to their first NUL |

## How the code is read

- A C++ `char` of text is a Dafny `char`; nothing depends on how many values it has. Bytes of
  binary data are integers below 256, words of a bitfield are 32-bit vectors.
- A `std::map` with string keys is a sequence of fields in strictly ascending key order. A
  `std::vector` that methods change is a field of sequence type.
- The decoder reads a buffer that has one readable NUL behind its last byte, because its list
  and dictionary loops look at the current byte before they compare with the end. Output
  iterators append.
- The decoder's limits are parameters of the function `Decode`: a budget of levels still
  allowed, and the largest `int`. The methods count depth upwards from 0 to 100 and read lengths
  into 32 bits as the code does. With the limits as parameters, unique decodability at any depth
  and length follows from the inverse law.
- The host is little-endian. The bit count in front of a bitfield's words is a field of its own.
- The bridge's integer accumulator and the result of `atoi` are C++ `int`s; running past their
  range is undefined, and the model makes that an outcome of its own, `Overflow` or `Overflown`.
- The value of a string member is a text as any writer of JSON may print it, after section 7 of
  RFC 8259, except that control characters may also stand for themselves: the bridge's own
  escaper prints most of them so. `JsonString` tells the texts of the RFC apart.
- Where the code hands on `c_str()`, what follows the first NUL of the string is cut off
  (`CStrings.CString`).
- A callback of the I2P code is one step. When an error makes the stream close its socket, the
  handler runs first, with the socket still open: the session is then closing, what the handler
  asks for are steps of their own, and the close is the step after them. The stream's own
  machine follows one operation as far as the call of its handler, so there the close belongs
  to the same step. A reply line is given
  as its two leading words and its name=value pairs, together with whether all of it could be
  read. Lists of requests sent, replies accepted and handlers run are kept to state the results.
- A storage is a disk subsystem and an index there. The storages that are handed out are recorded
  in a ledger that all disk subsystems share; giving back one that is not handed out is a
  precondition violation, so every call of `remove_torrent` is shown to be due.

## What the code does that its documentation does not say

- A dictionary key that is not a string ends the dictionary without an error, with the input
  left behind that key (`NonStringKeyEndsDictionary`).
- Encoding has no limits and decoding has two: an entry comes back if and only if it has at
  most 100 node levels and no string or key longer than an `int` can say (`RoundTrip`).
- The decoder accepts more than bencoding: `i007e`, `i 1xe` and `3x:abc` are read as 7, 1 and
  `abc` (`LooseNumbers`, `LooseLength`); `AcceptedExactly` has all of it. What it read encodes to the same text if and only if
  that text was strict (`ReencodesExactly`).
- The extractor knows only the escapes of the quote, the backslash and the line feed, so a
  string comes back if and only if its text uses no other (`ReadoutExact`). The settings are
  written by the platform's own JSON writer: a path whose slashes it escapes comes back with
  backslashes. Of what the bridge escapes itself, exactly the strings with a carriage return or
  a tab are lost (`LossyExact`).
- The name of a torrent is printed up to its first NUL, so it reads back from the status text if
  and only if it has no NUL, carriage return or tab (`StatusReads`).
- The escaper lets control characters through, so what it writes is a JSON string if and only if
  its argument has none but line feeds, carriage returns and tabs (`EscapeStrict`).
- The application sends every setting as a string (`real_torrent_engine.dart`, lines 128-152), but
  the bridge reads numbers and switches only unquoted: every number that is sent arrives as 0,
  and no switch arrives at all (`QuotedValuesIgnored`).
- Connecting through a resolver that reports success without an address reports success,
  although nothing was sent (`ConnectOutcome`).
- Name lookups wait forever exactly after a SAM connect failed while some were asked for, or
  after one was asked for on a closed socket with all others answered (`StuckExactly`,
  `StuckForever`). What a handler asks for while its stream is about to close an open socket is
  never what strands it.
- `link::clear` leaves the list alone, so by itself it is right exactly for an object that is
  not in the list (`Clear`). Its caller in `torrent.hpp` asserts the opposite; that is right
  when the whole list is emptied with it (`ClearList`).
- The priority set for a piece does not take precedence over its availability, as a comment in
  `piece_picker.hpp` says: they are multiplied. It decides exactly where `PriorityOrder` says;
  `SetPriorityYields` has an input, `RarestFirst` the cases where one of the two decides alone.
- `make_reverse` puts a full piece, whose blocks are all requested, into the pick list, because
  the priority tests for the full state and not for the full queue (`PriorityExact`,
  `FullReverseListed`, `ReverseMoves`).

## Model

| member | source | states |
|---|---|---|
| Decimal.ScanDigits | android/libtorrent/include/libtorrent/bencode.hpp:76-93 | reading back the digits that the integer writer produces gives exactly the number, whatever text follows |
| Decimal.StrtollReadsIntToStr | android/libtorrent/include/libtorrent/bencode.hpp:225-235 | the decoder's number reader inverts the integer writer on every 64-bit integer, negative ones included |
| Decimal.AtoiReadsDigits | android/libtorrent/include/libtorrent/bencode.hpp:330 | the length reader gives back the written length if it fits an int, and overflows if it does not |
| Bencode.Decode | android/libtorrent/include/libtorrent/bencode.hpp:197-352 | decoding always ends; the position never moves back and never passes the end; a node that is accepted consumed at least one byte |
| Bencode.DecodeItems | android/libtorrent/include/libtorrent/bencode.hpp:241-268 | the list loop ends, moving only forward and never past the end |
| Bencode.DecodeFields | android/libtorrent/include/libtorrent/bencode.hpp:274-311 | the dictionary loop ends, moving only forward and never past the end |
| Bencode.Until | android/libtorrent/include/libtorrent/bencode.hpp:103-122 | the position reached is the first one holding the end token, or the end of input |
| BencodeIo.Output.WriteInteger | android/libtorrent/include/libtorrent/bencode.hpp:76-93 | appends the canonical decimal text and returns its length |
| BencodeIo.Output.WriteString | android/libtorrent/include/libtorrent/io.hpp:180-185 | appends the string and returns its length |
| BencodeIo.Output.BencodeRecursive | android/libtorrent/include/libtorrent/bencode.hpp:141-194 | appends exactly the bencoded text of the entry, for preformatted text that text itself, and the integer returned is the number of characters appended, also for nested preformatted and undefined nodes |
| BencodeIo.Output.WriteItems | android/libtorrent/include/libtorrent/bencode.hpp:158-164 | the list loop appends the items' texts in order and counts them |
| BencodeIo.Output.WriteFields | android/libtorrent/include/libtorrent/bencode.hpp:165-179 | the dictionary loop appends keys and values in key order and counts them |
| BencodeIo.ReadUntil | android/libtorrent/include/libtorrent/bencode.hpp:103-122 | collects exactly the text before the token; an error exactly when the input ends first |
| BencodeIo.ReadString | android/libtorrent/include/libtorrent/bencode.hpp:125-138 | reads exactly so many characters; an error exactly when there are fewer |
| BencodeIo.BdecodeRecursive | android/libtorrent/include/libtorrent/bencode.hpp:197-352 | entry, position, error flag and overflow of a length are those of Decode with the levels that the depth leaves |
| BencodeIo.ListLoop | android/libtorrent/include/libtorrent/bencode.hpp:241-268 | the loop that fills a list in place refines the recursive reading of items |
| BencodeIo.DictLoop | android/libtorrent/include/libtorrent/bencode.hpp:274-311 | the loop that fills a map in place refines the recursive reading of fields |
| BencodeIo.Bdecode | android/libtorrent/include/libtorrent/bencode.hpp:382-407 | unless a string length overflows an int, gives the accepted entry, or an undefined one after an error, and the number of characters consumed in both cases |
| BencodeProofs.PutUpdates | android/libtorrent/include/libtorrent/entry.hpp:250-258 | storing under a key replaces or adds that field, keeps every other field, and keeps the keys in order |
| BencodeProofs.LessExact | android/libtorrent/include/libtorrent/entry.hpp:92-114 | the order of keys is that of raw strings: a proper prefix first, and else the smaller character where two keys first differ |
| BencodeProofs.AcceptedKeysAscend | android/libtorrent/include/libtorrent/bencode.hpp:274-311 | in every dictionary of an accepted entry, at any depth, the keys ascend as raw strings, in whatever order the text had them |
| BencodeProofs.DecodeEncoded | android/libtorrent/include/libtorrent/bencode.hpp:141-352 | decoding the text of an entry within the limits on levels and string lengths gives the entry back, wherever the text stands and whatever surrounds it |
| BencodeProofs.RefuseUnfit | android/libtorrent/include/libtorrent/bencode.hpp:199-203 | decoding the text of an entry beyond the limits never gives an entry: it is rejected if only its levels are too many, and a length overflows if only a string is too long |
| BencodeProofs.RoundTrip | android/libtorrent/include/libtorrent/bencode.hpp:141-352 | for every entry without preformatted text and any trailing bytes, decoding its encoding succeeds if and only if it has at most 100 node levels and every string and key has at most 2147483647 characters, and then gives the entry (an undefined node as an empty string) and stops right at the trailing bytes |
| BencodeProofs.UniquelyDecodable | android/libtorrent/include/libtorrent/bencode.hpp:141-179 | at any depth and any string length, the encoding of a plain entry is no prefix of the encoding of another |
| BencodeProofs.PreformattedRoundTrip | android/libtorrent/include/libtorrent/bencode.hpp:180-183 | preformatted text that is the encoding of a node may stand for it anywhere: the same text is written, and decoding it gives the entry without preformatted text |
| BencodeProofs.AcceptedIsPlain | android/libtorrent/include/libtorrent/bencode.hpp:197-352 | whatever the input, key order and repetitions, an accepted entry has only 64-bit integers, strings, lists and maps with sorted distinct keys, and is within the limits on levels and string lengths |
| BencodeProofs.Normalises | android/libtorrent/include/libtorrent/bencode.hpp:197-390 | re-encoding an accepted entry and decoding that gives the same entry |
| BencodeGrammar.AcceptedExactly | android/libtorrent/include/libtorrent/bencode.hpp:197-352 | the decoder accepts a text, stops at its end and reads an entry if and only if it is a text of the grammar, with at most 100 levels and strings of at most 2147483647 characters, that means that entry: integers with blanks, one sign, digits and anything behind them, clamped to 64 bits; strings with anything behind the digits of their length; lists; dictionaries of string keys that end at an e or behind a key that is no string |
| BencodeGrammar.KindExact | android/libtorrent/include/libtorrent/bencode.hpp:214-352 | the first character of what is accepted is i, l, d or a digit, and tells its kind |
| BencodeGrammar.RefusesStart | android/libtorrent/include/libtorrent/bencode.hpp:199-212 | a node too deep, at the end of input or with any other first character is refused where it stands |
| BencodeGrammar.RefusesInt | android/libtorrent/include/libtorrent/bencode.hpp:218-237 | an integer without an e is refused at the end of input, and one without a digit behind its blanks and sign behind its e |
| BencodeGrammar.RefusesString | android/libtorrent/include/libtorrent/bencode.hpp:316-340 | a string without a colon or with too few characters is refused at the end of input, and a length beyond int overflows |
| BencodeGrammar.RefusesList | android/libtorrent/include/libtorrent/bencode.hpp:241-268 | a list without an end is refused at the end of input, and one with a refused node where that node is |
| BencodeGrammar.RefusesDict | android/libtorrent/include/libtorrent/bencode.hpp:274-311 | so is a dictionary without an end, and one with a refused key or value |
| BencodeGrammar.RefusedTexts | android/libtorrent/include/libtorrent/bencode.hpp:197-352 | three texts that are refused, and where |
| BencodeStrict.ReencodesExactly | android/libtorrent/include/libtorrent/bencode.hpp:141-352 | an accepted entry encodes to the very text it was read from if and only if that text is strict: its numbers and lengths have no leading zero, plus sign, blank or anything behind their digits, no number is clamped, and its dictionaries are closed and have string keys in strictly ascending order |
| BencodeStrict.StrictTexts | android/libtorrent/include/libtorrent/bencode.hpp:141-352 | the strict texts are exactly the encodings of the plain entries within the limits |
| BencodeStrict.StrictExact | android/libtorrent/include/libtorrent/bencode.hpp:197-352 | every strict text is accepted, read to its end, and is the encoding of what was read |
| BencodeStrict.EncodedStrict | android/libtorrent/include/libtorrent/bencode.hpp:141-194 | whatever the encoder writes for an entry within the limits is strict |
| BencodeStrict.StrictNumberExact | android/libtorrent/include/libtorrent/bencode.hpp:225-235 | a number's text is the one that the writer prints for the value read if and only if it is strict |
| BencodeStrict.LooseNumbers | android/libtorrent/include/libtorrent/bencode.hpp:225-235 | two number texts that are accepted and not strict |
| BencodeStrict.LooseLength | android/libtorrent/include/libtorrent/bencode.hpp:320-332 | a string text that is accepted and not strict |
| BencodeDictionaries.NonStringKeyEndsDictionary | android/libtorrent/include/libtorrent/bencode.hpp:274-311 | any sequence of keys and values, in any order and with repetitions, is accepted without error as the fields before the first key that is no string; the decoder stops behind that key, and reads the closing e if and only if every key is a string |
| BencodeDictionaries.FilledLastWins | android/libtorrent/include/libtorrent/bencode.hpp:290-291 | the dictionary so filled has its keys in order, and under each key exactly the value stored last before the first key that is no string |
| BencodeDictionaries.NumberKeyEndsDictionary | android/libtorrent/include/libtorrent/bencode.hpp:279-287 | the input di1e0:e is accepted as an empty dictionary with three characters unread |
| BridgeJson.JsonEscape | android/libtorrent/jni/torrent_bridge.cpp:28-43 | the loop computes the character-wise escaping |
| BridgeJson.Find | android/libtorrent/jni/torrent_bridge.cpp:48-50 | the position of the first occurrence, or -1 if there is none |
| BridgeJson.JsonExtractString | android/libtorrent/jni/torrent_bridge.cpp:46-61 | the loop returns what stands behind the first occurrence of the key with an opening quote, up to the closing quote, unescaped |
| BridgeJson.JsonExtractInt | android/libtorrent/jni/torrent_bridge.cpp:63-77 | the loops return the signed number behind the first occurrence of the key, the default without one, and Overflow where the accumulator leaves the range of int |
| BridgeJson.JsonExtractBool | android/libtorrent/jni/torrent_bridge.cpp:79-88 | returns the bool behind the first occurrence of the key, else the default |
| JsonTexts.QuotesAreEscaped | android/libtorrent/jni/torrent_bridge.cpp:46-61 | in the text of a string in an object, whoever wrote it, every quote has a backslash before it |
| JsonTexts.EscapeWrites | android/libtorrent/jni/torrent_bridge.cpp:28-43 | what the escaper writes means exactly its argument, once control characters may stand for themselves |
| JsonTexts.EscapeStrict | android/libtorrent/jni/torrent_bridge.cpp:28-43 | what the escaper writes is a JSON string of RFC 8259 if and only if its argument has no control character but line feeds, carriage returns and tabs |
| JsonTexts.ReadoutExact | android/libtorrent/jni/torrent_bridge.cpp:51-59 | the extractor gives the string that a text means if and only if the text escapes nothing but quotes, backslashes and line feeds; else what it gives is longer |
| BridgeJsonProofs.OnlyOwnMatch | android/libtorrent/jni/torrent_bridge.cpp:46-67 | in a member of an object, the search text of a key matches only at the member's own start and only if the keys are equal, whatever the value holds |
| BridgeJsonProofs.FindMember | android/libtorrent/jni/torrent_bridge.cpp:46-67 | in any object with distinct keys the first match of a key is that key's own member, or there is none |
| JsonTexts.UnescapePrinted | android/libtorrent/jni/torrent_bridge.cpp:51-60 | of the text of any string in an object the extractor undoes the escapes it knows, keeps the others as printed, and stops at that string's own closing quote |
| JsonTexts.LossyExact | android/libtorrent/jni/torrent_bridge.cpp:28-61 | what the bridge escaped comes back if and only if it holds neither CR nor TAB |
| BridgeJsonProofs.ScanIntDigits | android/libtorrent/jni/torrent_bridge.cpp:71-76 | a printed number reads back if and only if it is at most 2147483647 |
| BridgeJsonProofs.ExtractStringReads | android/libtorrent/jni/torrent_bridge.cpp:46-61 | on every object, whoever wrote its strings, and for every key: the stored string up to the escapes the extractor does not know, or the empty string if the key is absent or holds no string |
| BridgeJsonProofs.ExtractIntReads | android/libtorrent/jni/torrent_bridge.cpp:63-77 | on every object, for every key: the stored int if in range, the default if the key is absent, and 0 for a string or a bool |
| BridgeJsonProofs.ExtractBoolReads | android/libtorrent/jni/torrent_bridge.cpp:79-88 | on every object, for every key: the stored bool, and otherwise the default |
| BridgeJsonProofs.BlanksIgnored | android/libtorrent/jni/torrent_bridge.cpp:68-84 | blanks and tabs between the colon of a key and its value change nothing for the readers of numbers and switches |
| BridgeJsonProofs.QuotedValuesIgnored | android/libtorrent/jni/torrent_bridge.cpp:345-360 | on an object whose values are all strings, as the application sends its settings, every number present reads as 0, an absent one as its default, and every switch as its default |
| BridgeJsonProofs.StatusMembersValid | android/libtorrent/jni/torrent_bridge.cpp:298-312 | the twelve keys of the status object are distinct key texts, so the results above apply to it |
| BridgeJsonProofs.EscapeCString | android/libtorrent/jni/torrent_bridge.cpp:297-314 | cutting the escaped name off at its first NUL is escaping the name cut off there |
| BridgeJsonProofs.StatusTextRenders | android/libtorrent/jni/torrent_bridge.cpp:298-325 | the text that the format prints, with the info hash and the status unescaped and the name up to its first NUL, is the compact object of the twelve members |
| BridgeJsonProofs.StatusNumbersRead | android/libtorrent/jni/torrent_bridge.cpp:297-325 | whatever the torrent is called, each of the nine numeric keys of its printed status text gives back the field it is printed from if that fits an int, the whole part for progress, and overflows otherwise |
| BridgeJsonProofs.StatusReads | android/libtorrent/jni/torrent_bridge.cpp:297-325 | so do the info hash and the status, and the name if and only if it holds neither NUL nor CR nor TAB |
| LinkLists.PositionExact | android/libtorrent/include/libtorrent/link.hpp:46-52 | in a consistent state a recorded position is i >= 0 exactly when the list holds the object at i, and the object is in the list exactly when in_list says so |
| LinkLists.InsertKeepsConsistent | android/libtorrent/include/libtorrent/link.hpp:73-79 | insert keeps every position of every object and every entry of every list pointing at each other |
| LinkLists.UnlinkKeepsConsistent | android/libtorrent/include/libtorrent/link.hpp:57-70 | so does unlink, with the last entry moved into the gap |
| LinkLists.UnlinkTakesOut | android/libtorrent/include/libtorrent/link.hpp:57-70 | unlink removes exactly that object from exactly that list |
| LinkLists.NextAgrees | android/libtorrent/include/libtorrent/link.hpp:57-79 | an operation on the lists is the same operation on the set of (object, list) memberships |
| LinkLists.Session.Insert | android/libtorrent/include/libtorrent/link.hpp:73-79 | the whole new state of all lists and positions after insert on the heap |
| LinkLists.Session.Unlink | android/libtorrent/include/libtorrent/link.hpp:57-70 | the whole new state of all lists and positions after unlink on the heap, including the object that moved |
| LinkLists.Session.Clear | android/libtorrent/include/libtorrent/link.hpp:54 | clear by itself keeps the state consistent if and only if the object was not in the list |
| LinkLists.Session.ClearList | android/libtorrent/include/libtorrent/torrent.hpp:1212-1216 | clearing every object of a list and emptying the list leaves the whole state consistent |
| LinkLists.ClearedKeepsConsistent | android/libtorrent/include/libtorrent/torrent.hpp:1212-1216 | after that no object is in the list, and each is in the same other lists as before |
| LinkLists.Session.Run | android/libtorrent/include/libtorrent/link.hpp:57-79 | after any run of inserts and unlinks the state is consistent and each object is in exactly the lists the same run on sets of memberships gives |
| Words.BitAfterSet | android/libtorrent/include/libtorrent/bitfield.hpp:98-103 | or-ing in a byte-swapped mask sets that bit of a word and no other |
| Words.BitAfterClear | android/libtorrent/include/libtorrent/bitfield.hpp:92-97 | and-ing with a byte-swapped complement clears that bit and no other |
| Words.BitAfterCut | android/libtorrent/include/libtorrent/bitfield.hpp:277-281 | the tail mask keeps the first bits of a word and clears the rest |
| Words.ZeroWord | android/libtorrent/include/libtorrent/bitfield.hpp:115-118 | a word is zero exactly when none of its bits is set |
| Words.BitIsByteBit | android/libtorrent/include/libtorrent/bitfield.hpp:84-89 | bit i of a word is bit i mod 8, from the top, of its byte i / 8 in memory |
| Bitfields.ZeroWords | android/libtorrent/include/libtorrent/bitfield.hpp:109-120 | with a clear tail, all words are zero exactly when every logical bit is false |
| Bitfields.OneBitChanged | android/libtorrent/include/libtorrent/bitfield.hpp:92-103 | changing one bit of one word updates that logical bit, keeps all others and keeps the tail clear |
| Bitfields.Bitfield.GetBit | android/libtorrent/include/libtorrent/bitfield.hpp:84-89 | the logical bit at the index |
| Bitfields.Bitfield.SetBit | android/libtorrent/include/libtorrent/bitfield.hpp:98-103 | the boolean sequence with that element true, tail still clear |
| Bitfields.Bitfield.ClearBit | android/libtorrent/include/libtorrent/bitfield.hpp:92-97 | the boolean sequence with that element false, tail still clear |
| Bitfields.Bitfield.ClearTrailingBits | android/libtorrent/include/libtorrent/bitfield.hpp:277-281 | clears the tail of any buffer and keeps all logical bits |
| Bitfields.Bitfield.SetAll | android/libtorrent/include/libtorrent/bitfield.hpp:258-263 | every logical bit is true, tail clear |
| Bitfields.Bitfield.ClearAll | android/libtorrent/include/libtorrent/bitfield.hpp:264-268 | every logical bit is false |
| Bitfields.Bitfield.NoneSet | android/libtorrent/include/libtorrent/bitfield.hpp:109-120 | the word scan is true exactly when no logical bit is set |
| Bitfields.Bitfield.Assign | android/libtorrent/include/libtorrent/bitfield.hpp:71-79 | bit i is bit 7 - (i mod 8) of byte i / 8 of the buffer, as in the peer message section of BEP 3, whatever the new words held before |
| Bitfields.Bitfield.CopyFrom | android/libtorrent/include/libtorrent/bitfield.hpp:158-163 | assigning from another field's data gives an equal bitfield |
| Bitfields.Bitfield.Run | android/libtorrent/include/libtorrent/bitfield.hpp:71-120 | any run of assign, set, clear, set_all and clear_all keeps the tail clear and equals the same run on a sequence of booleans |
| BitfieldIterator.StepsByOne | android/libtorrent/include/libtorrent/bitfield.hpp:210-235 | inc goes from bit p to bit p + 1, across words too, and dec undoes it |
| BitfieldIterator.CursorExact | android/libtorrent/include/libtorrent/bitfield.hpp:203-207 | iterators are equal exactly when they stand at the same bit |
| BitfieldIterator.ConstIterator.Inc | android/libtorrent/include/libtorrent/bitfield.hpp:210-222 | updates word pointer and mask in place as the step function says |
| BitfieldIterator.ConstIterator.Dec | android/libtorrent/include/libtorrent/bitfield.hpp:223-235 | updates word pointer and mask in place as the backward step says |
| BitfieldIterator.ConstIterator.Deref | android/libtorrent/include/libtorrent/bitfield.hpp:194 | the bit under the iterator |
| BitfieldIterator.End | android/libtorrent/include/libtorrent/bitfield.hpp:244-250 | end() stands at bit size(), also when size() is a multiple of 32 or zero |
| BitfieldIterator.Traverse | android/libtorrent/include/libtorrent/bitfield.hpp:184-250 | stepping from begin() reaches end() after exactly size() increments and yields all bits in order |
| I2pStreams.I2pStream.DoConnect | android/libtorrent/include/libtorrent/i2p_stream.hpp:180-197 | the object's whole state after the resolver's callback |
| I2pStreams.I2pStream.OnConnected | android/libtorrent/include/libtorrent/i2p_stream.hpp:200-215 | the object's whole state after the socket connected |
| I2pStreams.I2pStream.StartReadLine | android/libtorrent/include/libtorrent/i2p_stream.hpp:218-230 | the object's whole state after a command was written |
| I2pStreams.I2pStream.ReadLine | android/libtorrent/include/libtorrent/i2p_stream.hpp:233-409 | the object's whole state after one more byte of a reply |
| I2pStreams.I2pStream.ReadPairs | android/libtorrent/include/libtorrent/i2p_stream.hpp:304-359 | the pair loop leaves the last RESULT, VALUE and DESTINATION of the line, and everything else unchanged |
| I2pStreams.I2pStream.HandleError | android/libtorrent/include/libtorrent/proxy_base.hpp:311-319 | calls the handler and closes exactly when there is an error |
| I2pStreams.StepSound | android/libtorrent/include/libtorrent/i2p_stream.hpp:180-409 | every callback keeps: either one operation holds the handler, at most one request is unanswered and it is the next one of the command, or the handler was called exactly once and success was earned |
| I2pStreams.StepHeard | android/libtorrent/include/libtorrent/i2p_stream.hpp:265-409 | the replies accepted are exactly the lines heard, each with the right words, all readable, and RESULT absent or OK |
| I2pStreams.ResultExact | android/libtorrent/include/libtorrent/i2p_stream.hpp:300-366 | the result of a reply is no error exactly if its last RESULT is OK or it has none, each of the seven other named values is its own error, and any other value is an unknown error |
| I2pStreams.NamesStored | android/libtorrent/include/libtorrent/i2p_stream.hpp:350-359 | a line with the right words stores its last VALUE and its last DESTINATION, and leaves alone what it does not name |
| I2pStreams.ConnectOutcome | android/libtorrent/include/libtorrent/i2p_stream.hpp:144-409 | in every run of create_session, connect or accept the handler is called at most once, exactly once when nothing is scheduled, and nothing is scheduled after that call; success means the full reply sequence was heard, plus the destination line for accept, with the one exception of a resolver that succeeds without an address |
| I2pStreams.OutcomeExact | android/libtorrent/include/libtorrent/i2p_stream.hpp:144-409 | in every run only the last event has an error; while something is scheduled every line heard was the next answer and the socket is open; in the end the handler is told the transport error, a parse error for a line with the wrong words or pairs that cannot be read, or what the last line tells, and the socket is closed in the first two cases only |
| I2pStreams.SuccessExact | android/libtorrent/include/libtorrent/i2p_stream.hpp:144-409 | without transport errors, a run that is over succeeded if and only if both replies of the command were heard and each answers its request without error |
| I2pStreams.IncomingLine | android/libtorrent/include/libtorrent/i2p_stream.hpp:239-263 | the line of an incoming connection, read byte by byte, becomes the destination exactly, up to its first NUL, and the handler is called with success |
| I2pStreams.Drive | android/libtorrent/include/libtorrent/i2p_stream.hpp:144-409 | the object driven by any run of events goes through the states of the step function |
| I2pConnections.ReplyStep | android/libtorrent/include/libtorrent/i2p_stream.hpp:570-601 | the handler gets the reply to its own query, up to the first NUL in it, although the stream already holds the name of the next one |
| I2pConnections.AnswerExact | android/libtorrent/include/libtorrent/i2p_stream.hpp:582-601 | a query is answered by the transport error, a parse error, the error its reply tells, or the last VALUE of the reply, and by the name asked for if there is none |
| I2pConnections.StepServes | android/libtorrent/include/libtorrent/i2p_stream.hpp:538-601 | every callback, every request a running handler makes, and the close behind a handler keep the session in step with a first-in first-out server |
| I2pConnections.LookupsInOrder | android/libtorrent/include/libtorrent/i2p_stream.hpp:538-601 | in every run of a session, requests made inside handlers included, at most one lookup is outstanding, reply i answers lookup i and runs its handler with its own answer, and everything asked for is answered, outstanding or queued exactly once |
| I2pConnections.StuckExactly | android/libtorrent/include/libtorrent/i2p_stream.hpp:538-601 | a run leaves lookups waiting with nothing under way if and only if at some point a connect failed with lookups asked for, or one was asked for on a closed socket with all others answered |
| I2pConnections.StuckForever | android/libtorrent/include/libtorrent/i2p_stream.hpp:538-601 | from then on, in every run, nothing is answered and everything asked for joins the queue |
| I2pConnections.LookupOnStream | android/libtorrent/include/libtorrent/i2p_stream.hpp:161-409 | for any run of the stream under a lookup, no handler is called before its last callback; that call carries the error or the name the stream then holds to the query of the session, and the stream closes its socket exactly if the session is closing |
| I2pConnections.LookUp | android/libtorrent/include/libtorrent/i2p_stream.hpp:161-409 | so does the stream object, asked for the name of a query and driven by any run of its callbacks |
| I2pStreams.I2pStream.SendNameLookup | android/libtorrent/include/libtorrent/i2p_stream.hpp:161-176 | the object's whole state after a lookup was sent |
| I2pConnections.I2pConnection.AsyncNameLookup | android/libtorrent/include/libtorrent/i2p_stream.hpp:538-545 | the object's whole state after a request |
| I2pConnections.I2pConnection.OnSamConnect | android/libtorrent/include/libtorrent/i2p_stream.hpp:550-565 | the object's whole state after the session was created or failed, before the stream closes |
| I2pConnections.I2pConnection.StartLookup | android/libtorrent/include/libtorrent/i2p_stream.hpp:570-579 | is only reached when idle with nothing outstanding, as the code asserts |
| I2pConnections.I2pConnection.OnLookupDone | android/libtorrent/include/libtorrent/i2p_stream.hpp:582-601 | the object's whole state after a lookup was answered, before the stream closes |
| I2pConnections.I2pConnection.CloseSocket | android/libtorrent/include/libtorrent/proxy_base.hpp:311-319 | the object's whole state after the close behind a handler |
| I2pConnections.Drive | android/libtorrent/include/libtorrent/i2p_stream.hpp:538-601 | the object driven by any run of events goes through the states of the step function, never starting a lookup beside another |
| StorageHolders.StorageHolder.Move | android/libtorrent/include/libtorrent/disk_interface.hpp:405-410 | takes over what the other holder owned and leaves it empty |
| StorageHolders.StorageHolder.MoveAssign | android/libtorrent/include/libtorrent/disk_interface.hpp:412-420 | gives back what it owned and takes over what the other owned; assigning to itself changes nothing |
| StorageHolders.StorageHolder.Reset | android/libtorrent/include/libtorrent/disk_interface.hpp:396-400 | gives back what it owned and owns nothing |
| StorageHolders.GiveBackKeeps | android/libtorrent/include/libtorrent/disk_interface.hpp:383-400 | giving a storage back keeps every storage handed out with exactly one owner |
| StorageHolders.TakeKeeps | android/libtorrent/include/libtorrent/disk_interface.hpp:405-420 | so does moving a storage from one holder to another |
| StorageHolders.StepKeeps | android/libtorrent/include/libtorrent/disk_interface.hpp:376-424 | so does every operation on holders |
| StorageHolders.EveryStorageGivenBackOnce | android/libtorrent/include/libtorrent/disk_interface.hpp:376-424 | over any run, with any number of disk subsystems, each storage handed out has exactly one owner until it is given back to its own subsystem, and once all holders are empty or gone it was given back exactly as often as it was handed out |
| StorageHolders.Program.MoveAssign | android/libtorrent/include/libtorrent/disk_interface.hpp:412-420 | the heap operation among all holders is the step above, and its remove_torrent is due |
| StorageHolders.Program.MoveConstruct | android/libtorrent/include/libtorrent/disk_interface.hpp:405-410 | the heap operation among all holders is the step above |
| StorageHolders.Program.Reset | android/libtorrent/include/libtorrent/disk_interface.hpp:396-400 | the heap operation among all holders is the step above, and its remove_torrent is due |
| StorageHolders.Program.Destroy | android/libtorrent/include/libtorrent/disk_interface.hpp:383-386 | the heap operation among all holders is the step above, and its remove_torrent is due |
| StorageHolders.Program.ConstructEmpty | android/libtorrent/include/libtorrent/disk_interface.hpp:378 | the heap operation among all holders is the step above |
| StorageHolders.Program.Run | android/libtorrent/include/libtorrent/disk_interface.hpp:376-424 | any program over any number of holders and disk subsystems performs its operations as steps, every remove_torrent is due, and when all holders are empty or gone everything handed out was given back as often as it was handed out |
| BigEndian.WriteImpl | android/libtorrent/include/libtorrent/io.hpp:78-99 | the shift loop appends the big-endian bytes of the value |
| BigEndian.ReadImpl | android/libtorrent/include/libtorrent/io.hpp:53-64 | the loop that shifts in bytes reads the value that the bytes have in a signed or unsigned type of that size, and advances behind them |
| BigEndian.WrittenValue | android/libtorrent/include/libtorrent/io.hpp:92-98 | the written bytes are the remainder of the value, and the arithmetic shift is what lies above them |
| BigEndian.ReadWritten | android/libtorrent/include/libtorrent/io.hpp:53-99 | reading what was written gives the value back, for every value of every signed and unsigned type, negative ones included |
| PeerMessages.Connection.SendMessage | android/libtorrent/include/libtorrent/bt_peer_connection.hpp:290-309 | appends exactly one frame to the send buffer |
| PeerMessages.WriteInt32 | android/libtorrent/include/libtorrent/io.hpp:153-155 | writes four bytes through the pointer, advances it, and leaves the rest of the array alone |
| PeerMessages.FramesSplitBack | android/libtorrent/include/libtorrent/bt_peer_connection.hpp:290-309 | any sequence of messages of at most 31 arguments splits back, by length prefix and big-endian reads, into the same types and arguments in order |
| PeerMessages.FramesDiffer | android/libtorrent/include/libtorrent/bt_peer_connection.hpp:290-309 | different message sequences are never sent as the same bytes |
| PeerMessages.SendAll | android/libtorrent/include/libtorrent/bt_peer_connection.hpp:290-309 | sending any sequence of messages appends exactly their frames to the send buffer, and from an empty buffer they split back |
| PiecePriority.PriorityExact | android/libtorrent/include/libtorrent/piece_picker.hpp:621-755 | the priority is non-negative exactly when the piece is wanted, missing, available and not in the full or finished download queue, with exactly one exception: a wanted, missing, available piece in the full-reverse state; and it always fits an int |
| PiecePriority.ListedExact | android/libtorrent/include/libtorrent/piece_picker.hpp:621-755 | which pieces are listed, and that a listed one stands at three times its weight plus its stage |
| PiecePriority.KeptOut | android/libtorrent/include/libtorrent/piece_picker.hpp:692-737 | a piece at index -1, one of set priority 0 and one that nobody has is not listed |
| PiecePriority.PriorityOfState | android/libtorrent/include/libtorrent/piece_picker.hpp:727-755 | the priority of every other piece in each of its seven states |
| PiecePriority.FullReverseListed | android/libtorrent/include/libtorrent/piece_picker.hpp:621-755 | a piece whose blocks are all requested that is listed |
| PiecePriority.PriorityOrder | android/libtorrent/include/libtorrent/piece_picker.hpp:707-755 | among listed pieces the order is lexicographic in availability weighed by set priority, then downloading before open before reverse, for any number of seeds on either side |
| PiecePriority.RarestFirst | android/libtorrent/include/libtorrent/piece_picker.hpp:699-755 | among listed pieces of the same set priority the rarer comes first, and among equally available ones the one of higher set priority, whatever their stages |
| PiecePriority.SetPriorityYields | android/libtorrent/include/libtorrent/piece_picker.hpp:707-755 | a rare piece of low set priority that comes before a common one of the highest |
| PiecePriority.ReverseMoves | android/libtorrent/include/libtorrent/piece_picker.hpp:636-650 | make_reverse moves a downloading piece back by exactly two stages, takes exactly the obtainable full pieces into the list, and moves nothing else; unreverse undoes it |
| PiecePriority.PiecePos.MakeReverse | android/libtorrent/include/libtorrent/piece_picker.hpp:644-650 | the whole new piece; never changes the download queue; the piece is reverse afterwards exactly if it is downloading or full |
| PiecePriority.PiecePos.Unreverse | android/libtorrent/include/libtorrent/piece_picker.hpp:636-642 | the whole new piece; never changes the download queue; the piece is not reverse afterwards |

## Left out

- Decode: what happens after `atoi` overflows is undefined and not modelled.
- BencodeIo.Output.BencodeRecursive: the count returned is an unbounded integer; the code's `int` would overflow beyond 2147483647 characters.
- BridgeJson.JsonExtractInt: the value computed after signed overflow is undefined and not modelled.
- BigEndian.ReadImpl: takes an iterator to random-access bytes; single-byte overloads are the case of size 1.
- Bitfields.Bitfield.Resize: only the new size is promised, because the body of `resize` is not in the repository; the constructors with an initial value, which rest on it, are not part of this model.
- integer_to_str, strtoll, atoi and std::string::find are given by what they compute; their bodies are not part of this model.
- The bitfield members count, find_first_set, find_last_clear, all_set and operator==, whose bodies are not part of this model.
- Objects that are not compact and flat, and which escapes the platform's JSON writer chooses: its body is not part of this model, so the results hold for every choice.
- The fixed 1536-byte status buffer and its truncation, the computation of the status fields, and progress values that are negative or not a number.
- Forwarding of settings to the session, JNI calls, the global session pointer, and the linear search for an info hash: foreign calls.
- The tokeniser that splits a SAM reply line, and the text of the commands sent, which is cut off at fixed buffer sizes.
- Re-opening an I2P connection to another host, closing it from outside, and storing the local endpoint.
- The code that empties the list of state updates after clearing its objects: its body is not part of this model.
- Sockets, resolvers and timers: they appear as the events that drive the I2P objects.
- Piece picker buckets, hash picker, file storage mapping, part files, peer lists, choker and token-based bdecode: only declared here.
- The stored seed count of the picker is a parameter; set_have and set_not_have only assign one field.
- Hashes, encryption, alerts, error categories and configuration: declarations, or bodies that are not part of this model.

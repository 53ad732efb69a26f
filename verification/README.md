# Verified model of the MQTT signer and the HAL reference wrappers

This project models, in Dafny 4.11, the two pieces of the repository whose behaviour is decided by its own code, and
proves what they promise.

**The signer** (`aiot_mqtt_sign.c`): the streaming SHA-256 context with its in-place rounds, padding and two-word byte
counter, HMAC-SHA-256 on top of it, the hex encoder, and `aiotMqttSign`, which builds the client id, the user name and
the password of a device. The specification side is FIPS 180-4 (SHA-256) and RFC 2104 (HMAC), written as one-shot
functions over byte sequences; the code side is a class with arrays that are updated in place.

**The wrappers** (`ubuntu/wrapper.c`, `Jabsco/wrapper.c`, whose table and TCP code is the same): the key-value store, a
file of 384 rows of two 644-byte items, with its hash, its search loops and its mutex; and the two TCP loops with a
deadline. The specification side is a plain map for the store, a sequential order for its threads, and the trace of
system calls for the loops.

## How it fits together

| file | what it holds |
|---|---|
| `Words`, `WordNumbers`, `Memory`, `CStrings` | bytes, words, counters; counters bit by bit; memcpy and memset; NUL-terminated strings |
| `Padding`, `Streaming` | section 5.1.1 of FIPS 180-4; contexts over any compression function, and why chunking is irrelevant |
| `Sha256Spec`, `Sha256Constants`, `Sha256Abc`, `Sha256` | section 6.2, its constants, its published answer for "abc"; the class that computes it in place |
| `HmacSpec`, `Hmac`, `Hex`, `SignSpec`, `Sign` | RFC 2104; the HMAC code; hex; the signed strings; `aiotMqttSign` |
| `KvLayout`, `KvTable`, `KvFile` | bytes of the file; the table slot by slot; the code over row buffers and file bytes |
| `KvMap`, `KvDelete`, `KvConcurrent`, `KvThreads` | agreement with a map over runs; what deletion hides; threads on rows; threads on the bytes of the file |
| `TcpWorld`, `TcpRead`, `TcpWrite` | an adversarial environment and its traces; the two loops |

Every method that changes state is tied to a function of the old state (`Absorb`, `Finished`, `Written`, `Step`, the
recorded trace), and the theorems are lemmas about those functions. `Context.Abs` and `KeyValueFile.table` are the two
abstraction functions.

Where code and documentation disagree the model follows the code: `HAL_Kv_Del` answers 0 for a key that is not stored
(the HAL manual says -1 is a failed deletion; `KvDelete.DelAnswers`), and it can hide another key; `HAL_TCP_Read` with
length 0 answers -1, a closed connection, whenever select finds something to read (`TcpRead.ReadNothing`).

Seven properties one would expect do not hold of the code. For each there is the exact condition under which it does, and
an input for which it does not:

| property | holds if and only if | fails for |
|---|---|---|
| the HMAC is delivered | the key has at most 64 bytes: `HmacSpec.DeliversHmac` | 65 zero bytes: `HmacSpec.LongKeyExample` |
| a Get finds what Set stored | the key has at most 127 bytes: `KvTable.SetThenGet` | 128 letters 'a': `KvDelete.LongKeyLost` |
| a Set of a longer key does not show under its first 127 bytes | these hash to another row or were stored before: `KvDelete.LongKeyShadow` | a key of 128 bytes: `KvDelete.ShadowSeen` |
| a Del leaves the other keys alone | no live slot 1 loses a slot 0 of another key: `KvMap.DelAgrees`, `KvDelete.DelKeepsOthers` | "Ad" and "da", set in this order: `KvDelete.FirstDeletedHidesSecond`, `KvDelete.KeysShareARow` |
| a deleted key stays away until it is set again | it was not behind an empty slot when it was deleted: `KvDelete.StaysAway` | "Ad" and "da" set, deleted in this order, "Ad" set again: `KvDelete.DeletedComesBack` |
| no select of the TCP loops waits longer than the time-out | the clock was not set back behind the first reading, short of a wrap: `TcpWorld.WaitsLongerWhenSetBack` | a clock set back from 10 to 0 ms: `TcpWorld.SetBackExample` |
| user name and client id determine the device | no '&' of its names splits the text into other accepted names: `SignSpec.UsernameDeterminesDevice`, `SignSpec.ClientIdTellsTheSame` | "a" of "a&a" and "a&a" of "a": `SignSpec.UsernameNotInjective` |

Assumptions about the surroundings: `char` is signed and `int` is 32 bits little-endian, as on the targets of the
wrappers; reading or writing a row either works or fails without effect (two flags of each call say which); recv and send
never transfer more than they were offered; strings passed in are NUL-terminated and output buffers are not inputs at the
same time. The clock of the TCP loops is a wall clock and may be set back at any time; the few results that need a clock
that is never set back say so.

## Model

| member | source | states |
|---|---|---|
| Words.GetOfPut | user-guide/linkkit/Paho_MQTT_Guide/aiot_mqtt_sign.c:108-126 | GET_UINT32_BE undoes PUT_UINT32_BE for every word |
| Words.LengthBytes | user-guide/linkkit/Paho_MQTT_Guide/aiot_mqtt_sign.c:301-306 | the eight bytes made of high and low are the 64-bit big-endian form of eight times the two-word counter, for every counter value |
| WordNumbers.HighLengthBits | user-guide/linkkit/Paho_MQTT_Guide/aiot_mqtt_sign.c:301-302 | on 32-bit words the or of `t0 >> 29` and `t1 << 3` is what the counter arithmetic says, for all counters |
| WordNumbers.LowLengthBits | user-guide/linkkit/Paho_MQTT_Guide/aiot_mqtt_sign.c:303 | on 32-bit words `t0 << 3` is what the counter arithmetic says |
| WordNumbers.RemainderBits | user-guide/linkkit/Paho_MQTT_Guide/aiot_mqtt_sign.c:259 | on 32-bit words `t0 & 0x3F` is the remainder by 64 |
| WordNumbers.StandsIsOneToOne | user-guide/linkkit/Paho_MQTT_Guide/aiot_mqtt_sign.c:108-126 | a word and a number that have the same bytes determine each other |
| Sha256Constants.RoundConstantsAreCubeRoots | user-guide/linkkit/Paho_MQTT_Guide/aiot_mqtt_sign.c:172-189 | each K[i] is the first 32 bits of the fractional part of the cube root of its prime, as section 4.2.2 of FIPS 180-4 defines it |
| Sha256Constants.InitialValueIsSquareRoots | user-guide/linkkit/Paho_MQTT_Guide/aiot_mqtt_sign.c:157-167 | each initial state word is the first 32 bits of the fractional part of a square root of a prime (section 5.3.3) |
| Sha256Abc.AbcDigest | user-guide/linkkit/Paho_MQTT_Guide/aiot_mqtt_sign.c:203-249 | the digest of "abc" is the published one, computed word by word and round by round |
| Padding.PadIsLeast | user-guide/linkkit/Paho_MQTT_Guide/aiot_mqtt_sign.c:308-309 | the padding has the least number of zero bits that section 5.1.1 allows |
| Sha256.F0IsMaj | user-guide/linkkit/Paho_MQTT_Guide/aiot_mqtt_sign.c:200 | the or-form of the macro is Maj on all words |
| Sha256.F1IsCh | user-guide/linkkit/Paho_MQTT_Guide/aiot_mqtt_sign.c:201 | the xor-form of the macro is Ch on all words |
| Sha256.S0IsSigma | user-guide/linkkit/Paho_MQTT_Guide/aiot_mqtt_sign.c:191-194 | S0 with its masked shifts is the small sigma 0 of section 4.1.2 |
| Sha256.S3IsSigma | user-guide/linkkit/Paho_MQTT_Guide/aiot_mqtt_sign.c:191-198 | S3 with its masked shifts is the big sigma 1 of section 4.1.2 |
| Sha256.ScheduleWord | user-guide/linkkit/Paho_MQTT_Guide/aiot_mqtt_sign.c:203-231 | with the earlier words right, the word computed inside round i, loaded or by the macro R, is word i of the message schedule |
| Sha256.RoundInPlace | user-guide/linkkit/Paho_MQTT_Guide/aiot_mqtt_sign.c:209-243 | the macro P followed by the rotation of A[0..7] is one round of section 6.2.2 |
| Sha256.AllRounds | user-guide/linkkit/Paho_MQTT_Guide/aiot_mqtt_sign.c:226-244 | the loop, with the schedule computed on the fly, is the 64 rounds of the two-phase definition |
| Sha256.Context.Process | user-guide/linkkit/Paho_MQTT_Guide/aiot_mqtt_sign.c:216-249 | for every state and block the new state is the compression function of section 6.2.2; counter and buffer are untouched |
| Sha256.Context.constructor | user-guide/linkkit/Paho_MQTT_Guide/aiot_mqtt_sign.c:137-140 | a context of zeros |
| Sha256.Context.Starts | user-guide/linkkit/Paho_MQTT_Guide/aiot_mqtt_sign.c:151-170 | nothing absorbed, state as in section 5.3.3 |
| Sha256.CountUp | user-guide/linkkit/Paho_MQTT_Guide/aiot_mqtt_sign.c:262-267 | the carry test on the low word is right: the two words count modulo 2^64 |
| Sha256.Context.WholeBlocks | user-guide/linkkit/Paho_MQTT_Guide/aiot_mqtt_sign.c:277-281 | the loop compresses exactly the whole blocks of the input and stops at the rest |
| Sha256.Context.AbsorbBytes | user-guide/linkkit/Paho_MQTT_Guide/aiot_mqtt_sign.c:269-285 | the pending bytes followed by the input: whole blocks go into the state, the rest is what the buffer then starts with |
| Sha256.Context.Update | user-guide/linkkit/Paho_MQTT_Guide/aiot_mqtt_sign.c:250-286 | from any context and for any input, empty included, the context becomes the one that absorbed the input |
| Streaming.AbsorbConcat | user-guide/linkkit/Paho_MQTT_Guide/aiot_mqtt_sign.c:250-286 | two updates are one update with the concatenation, from any context |
| Streaming.ChunkingIrrelevant | user-guide/linkkit/Paho_MQTT_Guide/aiot_mqtt_sign.c:250-286 | any list of chunks absorbs like its concatenation |
| Streaming.FoldOneBlock | user-guide/linkkit/Paho_MQTT_Guide/aiot_mqtt_sign.c:277-281 | one block is one compression, and a block in front of a message is compressed first |
| Streaming.PadCount | user-guide/linkkit/Paho_MQTT_Guide/aiot_mqtt_sign.c:308-309 | padn is in 1..64 and brings the length to 56 modulo 64 |
| Streaming.FinishedIsAligned | user-guide/linkkit/Paho_MQTT_Guide/aiot_mqtt_sign.c:308-312 | after finish's two updates no byte is left unabsorbed, from any context |
| Streaming.ClosingIsPadding | user-guide/linkkit/Paho_MQTT_Guide/aiot_mqtt_sign.c:301-312 | the message followed by what finish absorbs is the padded message of section 5.1.1, below 2^61 bytes |
| Streaming.AbsorbThenFinish | user-guide/linkkit/Paho_MQTT_Guide/aiot_mqtt_sign.c:295-312 | absorbing a message and finishing reaches the chaining value of the padded message |
| Streaming.StreamingIsOneShot | user-guide/linkkit/Paho_MQTT_Guide/aiot_mqtt_sign.c:151-325 | any chunking, then finish, reaches the chaining value of the padded concatenation |
| Streaming.ClosingWraps | user-guide/linkkit/Paho_MQTT_Guide/aiot_mqtt_sign.c:301-309 | where the bound 2^61 comes from: what finish absorbs depends on the byte count modulo 2^61 only |
| Sha256.Context.Close | user-guide/linkkit/Paho_MQTT_Guide/aiot_mqtt_sign.c:311-312 | the two inner updates leave the finished context |
| Sha256.Context.Finish | user-guide/linkkit/Paho_MQTT_Guide/aiot_mqtt_sign.c:295-325 | the context becomes the finished one and the first 32 output bytes its state, no other byte changes |
| Sha256.ChunkedIsSha256 | user-guide/linkkit/Paho_MQTT_Guide/aiot_mqtt_sign.c:151-325 | starts, updates with any chunks and finish give SHA-256 of the concatenation |
| Sha256.Sha256 | user-guide/linkkit/Paho_MQTT_Guide/aiot_mqtt_sign.c:327-336 | output is the SHA-256 of the input |
| HmacSpec.DeliversHmac | user-guide/linkkit/Paho_MQTT_Guide/aiot_mqtt_sign.c:345-351 | the output is the HMAC of section 2 of RFC 2104 for every old content of the array if and only if the key has at most 64 bytes |
| HmacSpec.LongKeyLeavesOutput | user-guide/linkkit/Paho_MQTT_Guide/aiot_mqtt_sign.c:349-351 | a longer key leaves the array as it was, and some old content is not the HMAC |
| HmacSpec.HmacInFull | user-guide/linkkit/Paho_MQTT_Guide/aiot_mqtt_sign.c:353-377 | HMAC in terms of SHA-256 and exclusive or alone: the inner hash has the key, filled with zeros, xor 0x36, the outer one xor 0x5c |
| Hmac.MakePads | user-guide/linkkit/Paho_MQTT_Guide/aiot_mqtt_sign.c:353-363 | the two pads are the zero-filled key xor 0x36 and xor 0x5c |
| Hmac.HashAfterPad | user-guide/linkkit/Paho_MQTT_Guide/aiot_mqtt_sign.c:366-370 | one pass writes SHA-256 of pad followed by text, also when the text is the output array itself |
| Hmac.HmacSha256 | user-guide/linkkit/Paho_MQTT_Guide/aiot_mqtt_sign.c:338-378 | NULL or a long key leaves the output as it was; otherwise it is the hash of the key xor 0x5c and the hash of the key xor 0x36 and the message, though the inner digest passes through the output |
| Hex.Hex2Str | user-guide/linkkit/Paho_MQTT_Guide/aiot_mqtt_sign.c:23-32 | the hex form of the input is written, nothing else |
| Hex.DecodeOfEncode | user-guide/linkkit/Paho_MQTT_Guide/aiot_mqtt_sign.c:23-32 | hex decoding inverts it, for every byte sequence |
| Hex.EncodeOfDecode | user-guide/linkkit/Paho_MQTT_Guide/aiot_mqtt_sign.c:23-32 | every upper-case hex string of even length comes from some bytes, the ones it decodes to |
| Hex.DigitsAreUpperCase | user-guide/linkkit/Paho_MQTT_Guide/aiot_mqtt_sign.c:25-30 | the digits are those of zEncode, the high half of a byte first |
| Hex.HexIsNumeral | user-guide/linkkit/Paho_MQTT_Guide/MqttSign.java:19-31 | up to letter case the hex form is the zero-filled base-16 numeral of the big-endian number, as the Java signer formats it |
| SignSpec.MacSrcInjective | user-guide/linkkit/Paho_MQTT_Guide/aiot_mqtt_sign.c:66-74 | the signed string determines product key and device name, whatever characters they hold |
| SignSpec.StringsInFull | user-guide/linkkit/Paho_MQTT_Guide/aiot_mqtt_sign.c:52-74 | client id, user name and string to sign, written out literal by literal |
| SignSpec.UsernameDetermines | user-guide/linkkit/Paho_MQTT_Guide/aiot_mqtt_sign.c:62-64 | the user name determines the pair of names, among all pairs, if and only if neither name holds an '&' |
| SignSpec.UsernameDeterminesDevice | user-guide/linkkit/Paho_MQTT_Guide/aiot_mqtt_sign.c:42-64 | among the devices the function accepts, the user name determines the device if and only if no '&' splits its text into a name of at most 32 and a key of at most 20 bytes other than its own |
| SignSpec.ClientIdTellsTheSame | user-guide/linkkit/Paho_MQTT_Guide/aiot_mqtt_sign.c:57-60 | two devices share a client id if and only if they share a user name |
| SignSpec.UsernameNotInjective | user-guide/linkkit/Paho_MQTT_Guide/aiot_mqtt_sign.c:57-64 | two accepted devices with different names share user name and client id |
| Sign.Append | user-guide/linkkit/Paho_MQTT_Guide/aiot_mqtt_sign.c:54-55 | memcpy to dst + strlen(dst) extends the text and keeps the closing NUL inside the buffer |
| Sign.BuildDeviceId | user-guide/linkkit/Paho_MQTT_Guide/aiot_mqtt_sign.c:53-55 | within the 20 and 32 limits the 54 bytes hold name, '&', key and a NUL |
| Sign.BuildMacSrc | user-guide/linkkit/Paho_MQTT_Guide/aiot_mqtt_sign.c:67-74 | the eight copies stay inside 200 bytes and spell the string to sign |
| Sign.SignInto | user-guide/linkkit/Paho_MQTT_Guide/aiot_mqtt_sign.c:76-81 | HMAC's early returns are not taken; the password buffer is the hex HMAC and a NUL |
| Sign.AiotMqttSign | user-guide/linkkit/Paho_MQTT_Guide/aiot_mqtt_sign.c:34-83 | -1 exactly for a NULL or an over-long input, with all outputs unchanged; otherwise client id, user name and password hold exactly the documented strings, NUL-terminated, and their other bytes are unchanged |
| KvLayout.LeIntOfLeBytes | user-guide/linkkit/Vendors/ubuntu/wrapper.c:522-526 | value_len survives being stored as four bytes, for every int |
| KvLayout.LeBytesOfLeInt | user-guide/linkkit/Vendors/ubuntu/wrapper.c:522-526 | and the other way round |
| KvLayout.DecodeOfEncode | user-guide/linkkit/Vendors/ubuntu/wrapper.c:522-526 | an item's bytes decode to the key and value they encode |
| KvLayout.EncodeFileInjective | user-guide/linkkit/Vendors/ubuntu/wrapper.c:522-526 | the file determines the table |
| KvLayout.InsertItem | user-guide/linkkit/Vendors/ubuntu/wrapper.c:610-615 | strncpy, memcpy and the length on an item of zeros make the item of the key, cut to 127 bytes, and the value |
| KvLayout.UpdateItem | user-guide/linkkit/Vendors/ubuntu/wrapper.c:595-598 | memset, memcpy and the length give the stored key the new value, with no byte of the old one left |
| KvLayout.RowOfFile | user-guide/linkkit/Vendors/ubuntu/wrapper.c:740-752 | row i is the 1288 bytes at offset 1288 * i |
| KvLayout.SpliceRow | user-guide/linkkit/Vendors/ubuntu/wrapper.c:784-795 | writing them back changes row i of the table and nothing else |
| KvLayout.WhereItLies | user-guide/linkkit/Vendors/ubuntu/wrapper.c:522-526 | in plain numbers: item j of row i begins at byte 1288 i + 644 j; 128 bytes of key, 512 of value, four of length, least significant first, and zeros where nothing is |
| KvFile.HashGen | user-guide/linkkit/Vendors/ubuntu/wrapper.c:552-559 | the wrapping loop computes the base-33 polynomial of the signed characters modulo 2^32, then modulo 384 |
| KvTable.HashSnoc | user-guide/linkkit/Vendors/ubuntu/wrapper.c:552-559 | one more byte: 33 times the hash plus the byte as a signed char, modulo 2^32 |
| KvTable.HashAnswers | user-guide/linkkit/Vendors/ubuntu/wrapper.c:552-559 | three hashes in numbers, one of a negative char, one that overflows 32 bits |
| KvFile.PutInRow | user-guide/linkkit/Vendors/ubuntu/wrapper.c:590-615 | on the bytes of a row: full exactly when both slots hold other keys, else the bytes of the updated row |
| KvFile.FindInRow | user-guide/linkkit/Vendors/ubuntu/wrapper.c:656-670 | finds the item whose value the lookup returns, or none |
| KvFile.RmInRow | user-guide/linkkit/Vendors/Jabsco/wrapper.c:1817-1827 | the clearing loop leaves the bytes of the row without the key |
| KvFile.KeyValueFile.constructor | user-guide/linkkit/Vendors/ubuntu/wrapper.c:804-862 | a new file is 384 rows of zeros, the empty table |
| KvFile.KeyValueFile.ReadKvItem | user-guide/linkkit/Vendors/ubuntu/wrapper.c:719-759 | the row at the location, or -1 with the buffer untouched |
| KvFile.KeyValueFile.WriteKvItem | user-guide/linkkit/Vendors/ubuntu/wrapper.c:761-802 | the file with 1288 bytes replaced, or -1 with the file untouched |
| KvFile.KeyValueFile.Set | user-guide/linkkit/Vendors/ubuntu/wrapper.c:562-624 | the file stays the encoding of a table, and table and answer are those of one Set step, errors included |
| KvFile.KeyValueFile.Get | user-guide/linkkit/Vendors/ubuntu/wrapper.c:627-673 | NULL for key, value or length is refused; otherwise the answer is that of one Get step; on 0 the length is the smaller of the stored length and the caller's, the buffer begins with that much of the stored value and is unchanged behind it; the file is not changed |
| KvFile.KeyValueFile.Del | user-guide/linkkit/Vendors/Jabsco/wrapper.c:1794-1835 | table and answer are those of one Del step |
| KvTable.StepFrame | user-guide/linkkit/Vendors/ubuntu/wrapper.c:562-717 | a failed call changes nothing, any call at most its key's row |
| KvTable.FileFrame | user-guide/linkkit/Vendors/ubuntu/wrapper.c:761-802 | in file bytes: outside the 1288 bytes of the key's row nothing changes, after a failure nothing at all |
| KvTable.SetThenGet | user-guide/linkkit/Vendors/ubuntu/wrapper.c:562-673 | after a successful Set, in any table, Get answers 0 and the first bytes of the value, as many as it has, at most 512 and at most the caller's size, if and only if the key has at most 127 bytes; else -1 |
| KvMap.FullIsFull | user-guide/linkkit/Vendors/ubuntu/wrapper.c:590-606 | Set finds its row full if and only if the key is absent from the map and two other keys of the map share its row |
| KvMap.GoodRowPut | user-guide/linkkit/Vendors/ubuntu/wrapper.c:590-615 | a Set keeps occupied slots first, keys distinct and in their row, and disturbs no other key |
| KvMap.StepAgrees | user-guide/linkkit/Vendors/ubuntu/wrapper.c:562-717 | one call on the table answers and acts as on a map with 384 buckets of two keys |
| KvMap.DelAgrees | user-guide/linkkit/Vendors/Jabsco/wrapper.c:1794-1835 | after Del the table agrees with the map without the key, and keeps its invariant, if and only if the key was not in slot 0 in front of a live slot 1 |
| KvMap.RunAgrees | user-guide/linkkit/Vendors/Jabsco/wrapper.c:1680-1835 | every run of Set, Get and hole-free Del gets the answers of the map and keeps every row's invariant |
| KvMap.SetGetRunAgrees | user-guide/linkkit/Vendors/ubuntu/wrapper.c:562-834 | every run of Set and Get over keys of at most 127 bytes, from the created file, agrees with a map |
| KvMap.GetReturnsLastSet | user-guide/linkkit/Vendors/Jabsco/wrapper.c:1680-1835 | after every hole-free run from the created file Get answers the value of the last successful Set, cut to 512 bytes and to the caller's size, or -1 after a later Del |
| KvMap.GetMissesUnset | user-guide/linkkit/Vendors/ubuntu/wrapper.c:562-673 | and -1 for a key that was never set with success |
| KvMap.SetAnswers | user-guide/linkkit/Vendors/ubuntu/wrapper.c:562-624 | Set answers -1 exactly for an empty value, a row that cannot be read or written, or a new key whose row two other keys occupy; else 0 |
| KvMap.GetAnswers | user-guide/linkkit/Vendors/ubuntu/wrapper.c:627-673 | from any table Get answers -1 exactly for no room, a row that cannot be read or a key not found; else 0 and as much of the stored value as fits |
| KvDelete.DelThenGetMisses | user-guide/linkkit/Vendors/Jabsco/wrapper.c:1794-1835 | from every table, after Del(k) the next Get(k) misses |
| KvDelete.DelKeepsOthers | user-guide/linkkit/Vendors/Jabsco/wrapper.c:1794-1835 | from every row, with holes, duplicates and foreign keys or not, every other key is found as before if and only if no empty slot was made in front of it |
| KvDelete.HiddenEntryReappears | user-guide/linkkit/Vendors/Jabsco/wrapper.c:1680-1835 | the entry behind a hole is missed, and is back with its old value once another key fills the hole |
| KvDelete.HiddenKeySetTwice | user-guide/linkkit/Vendors/Jabsco/wrapper.c:1680-1835 | setting the hidden key stores it twice; the new value is found, and one Del removes both |
| KvDelete.DelAnswers | user-guide/linkkit/Vendors/Jabsco/wrapper.c:1794-1835 | from every table Del answers 0 if and only if the row could be read and written, stored or not; it changes the table if and only if the key was found, so a hidden key stays in the file |
| KvDelete.RmLeavesNoCopy | user-guide/linkkit/Vendors/Jabsco/wrapper.c:1817-1827 | Del leaves no copy of the key in the row if and only if the key was not behind an empty slot |
| KvDelete.StaysAway | user-guide/linkkit/Vendors/Jabsco/wrapper.c:1680-1835 | from every table: after Del(k) every continuation that does not store k again misses k, if and only if k was not behind an empty slot |
| KvDelete.BroughtBack | user-guide/linkkit/Vendors/Jabsco/wrapper.c:1680-1835 | for every hidden key there is another key whose Set brings it back with its old value |
| KvDelete.DeletedComesBack | user-guide/linkkit/Vendors/Jabsco/wrapper.c:1680-1835 | for any two keys of one row, set and then deleted in this order from the created file: both Dels answer 0, and setting the first again brings the second back |
| KvDelete.FirstDeletedHidesSecond | user-guide/linkkit/Vendors/Jabsco/wrapper.c:1680-1835 | for any two keys of one row, set in the created file: deleting the first hides the second until the slot is filled again, deleting the second does not touch the first |
| KvDelete.KeysShareARow | user-guide/linkkit/Vendors/ubuntu/wrapper.c:552-559 | "Ad" and "da" hash to the same row |
| KvDelete.LongKeyLost | user-guide/linkkit/Vendors/ubuntu/wrapper.c:610-615 | a Set of 128 letters in the created file answers 0 and the next Get misses |
| KvDelete.LongKeyShadow | user-guide/linkkit/Vendors/ubuntu/wrapper.c:590-615 | a Set of an over-long key changes no Get but that of its first 127 bytes, and that one if and only if they hash to the same row and were not stored; exactly then the rows keep their invariant |
| KvDelete.ShadowSeen | user-guide/linkkit/Vendors/ubuntu/wrapper.c:552-615 | a key of 128 bytes for which that happens |
| KvConcurrent.StepExplained | user-guide/linkkit/Vendors/ubuntu/wrapper.c:864-905 | every step of every thread keeps the rows and the answers explained by a sequential order that grows at its end only |
| KvConcurrent.MutualExclusion | user-guide/linkkit/Vendors/ubuntu/wrapper.c:864-905 | in no state of any run are two threads inside a call |
| KvConcurrent.SomeoneCanStep | user-guide/linkkit/Vendors/ubuntu/wrapper.c:864-905 | while a call is left some thread can step: every path gives the lock back |
| KvConcurrent.NeverStuck | user-guide/linkkit/Vendors/ubuntu/wrapper.c:864-905 | no run gets stuck: in its last state, while a call is left, some thread can go on |
| KvConcurrent.Serializable | user-guide/linkkit/Vendors/ubuntu/wrapper.c:864-905 | every interleaving has a sequential order with the same answers and rows, the same order in each thread, and real-time order between calls |
| KvConcurrent.QuiescentIsSequential | user-guide/linkkit/Vendors/ubuntu/wrapper.c:864-905 | when the lock is free the rows are those of the sequential run of all calls that returned: no update is lost |
| KvConcurrent.ProgramKept | user-guide/linkkit/Vendors/ubuntu/wrapper.c:864-905 | no call is dropped, repeated or reordered within its thread |
| KvConcurrent.ThreadsShareOneMap | user-guide/linkkit/Vendors/ubuntu/wrapper.c:864-905 | threads that set and get from the created file see one map |
| KvThreads.PutBytesIs | user-guide/linkkit/Vendors/ubuntu/wrapper.c:590-615 | on the bytes of a row, the search and the writes of put give the bytes of the updated row, or find it full |
| KvThreads.StepEncoded | user-guide/linkkit/Vendors/ubuntu/wrapper.c:719-905 | a state of threads on file bytes and buffers can go on exactly where the state of rows it encodes can, and to the encoding of the same next state |
| KvThreads.FileSerializable | user-guide/linkkit/Vendors/ubuntu/wrapper.c:719-905 | in every state of every interleaving on bytes the file is, byte by byte, that of a sequential run of the calls that took effect, with their replies and each thread's order |
| KvThreads.FileQuiescent | user-guide/linkkit/Vendors/ubuntu/wrapper.c:719-905 | when the lock is free that is the sequential run of all calls that returned: no update is lost |
| KvThreads.FileGoesOn | user-guide/linkkit/Vendors/ubuntu/wrapper.c:864-905 | no run on bytes gets stuck, and no two threads are inside their calls |
| KvThreads.ThreadsShareOneFile | user-guide/linkkit/Vendors/ubuntu/wrapper.c:804-905 | threads that set and get from a file of zeros see one map, and the file ends up as its encoding |
| KvConcurrent.LostUpdateWithoutLock | user-guide/linkkit/Vendors/ubuntu/wrapper.c:864-890 | the same machine without waiting for the lock has a run in which two Sets of different keys of one row both answer 0 and one key is gone, while both orders of the calls keep both |
| TcpWorld.AcceptedIsPrefix | user-guide/linkkit/Vendors/ubuntu/wrapper.c:1518-1530 | sends that offer what is left, in turn, put a prefix of the data on the wire |
| TcpWorld.WaitsAreBounded | user-guide/linkkit/Vendors/ubuntu/wrapper.c:1408-1418 | each select waits from the last clock reading exactly to the deadline |
| TcpWorld.WaitsLongerWhenSetBack | user-guide/linkkit/Vendors/ubuntu/wrapper.c:1408-1418 | short of a wrap-around, a select waits no longer than the caller's time-out if and only if the clock was not set back behind the first reading |
| TcpWorld.NeverWaitsLonger | user-guide/linkkit/Vendors/ubuntu/wrapper.c:1408-1418 | with a clock that runs forward no select waits longer than the time-out, not even when the deadline wraps around |
| TcpWorld.GivesIsLawful | user-guide/linkkit/Vendors/ubuntu/wrapper.c:60-83 | what an environment that keeps its promises answers is a lawful history: no transfer larger than asked, and readings that run forward if its clock is never set back |
| TcpWorld.Replay | user-guide/linkkit/Vendors/ubuntu/wrapper.c:60-83 | and every lawful history, with the clock set back or not, is what some such environment answers, with signals that end and a clock that reaches any deadline: nothing is excluded by the assumptions |
| TcpRead.ReadOnce | user-guide/linkkit/Vendors/ubuntu/wrapper.c:1407-1445 | one iteration: the buffer holds what was received, recv is called exactly after a positive select, and the loop goes on only after progress or a signal |
| TcpRead.Read | user-guide/linkkit/Vendors/ubuntu/wrapper.c:1390-1450 | for every environment with finitely many signals, whatever its clock does: every recorded answer is the environment's, recv asks for what is missing exactly after each positive select, the buffer holds the concatenation of what recv delivered, at most len bytes, and its length is returned; it stops only when everything is there, at an end or out of time; -1 or -2 only if nothing came, and exactly for an end of stream or a failure; it returns |
| TcpRead.GoesOn | user-guide/linkkit/Vendors/ubuntu/wrapper.c:1407-1445 | which call follows which: no call after an end, a time-out or the last byte, and otherwise the one that must come |
| TcpRead.ReadIsDetermined | user-guide/linkkit/Vendors/ubuntu/wrapper.c:1390-1450 | in one environment, after one history, there is one run that meets the contract |
| TcpRead.ReadNothing | user-guide/linkkit/Vendors/ubuntu/wrapper.c:1407-1449 | with length 0, where recv delivers nothing to a buffer without room, the answer is -1 if and only if select was positive |
| TcpRead.ReadReplayed | user-guide/linkkit/Vendors/ubuntu/wrapper.c:1390-1450 | Read can be called in an environment that answers any lawful history |
| TcpWrite.WriteOnce | user-guide/linkkit/Vendors/ubuntu/wrapper.c:1485-1537 | one iteration with its condition follows the calls the loop must make: select while time is left, send after a positive result, the clock again only while something is left |
| TcpWrite.Write | user-guide/linkkit/Vendors/ubuntu/wrapper.c:1468-1544 | for every environment whose clock reaches the deadline, set back in between or not: every recorded answer is the environment's; every select that finds the descriptor writable is followed by a send, a late reading is if and only if it starts an iteration and the latest select or send was positive or there was none; what was accepted is a gap-free, repeat-free prefix of buf and its length is returned, or -1 after a failure; it ends with everything sent, out of time or a failure; if the clock is never set back, a late reading ends it after at most one send, and with time-out 0 there is exactly one send |
| TcpWrite.ReadyIsSent | user-guide/linkkit/Vendors/ubuntu/wrapper.c:1497-1522 | a select that finds the descriptor writable is followed by a send |
| TcpWrite.LateIsSent | user-guide/linkkit/Vendors/ubuntu/wrapper.c:1485-1537 | when a late reading is followed by a send, by one more reading or by nothing |
| TcpWrite.WriteIsDetermined | user-guide/linkkit/Vendors/ubuntu/wrapper.c:1468-1544 | in one environment, after one history, there is one run that meets the contract |
| TcpWrite.WriteReplayed | user-guide/linkkit/Vendors/ubuntu/wrapper.c:1468-1544 | Write can be called in an environment that answers any lawful history that starts with a reading of the clock, and whose clock is monotone if the history's is |
| TcpWrite.SendOffers | user-guide/linkkit/Vendors/ubuntu/wrapper.c:1518-1522 | each send offers exactly what the ones before it left over |
| TcpWrite.AfterLate | user-guide/linkkit/Vendors/ubuntu/wrapper.c:1485-1537 | after a reading that finds no time left there is at most one send, one more reading and no select |

## Left out

- The guides, the build manuals, the Java, Go and C# signers beyond the hex form, the TLS test driver, the example
  application and the radiotap headers: no code of this component.
- In the wrappers: Wi-Fi shell commands, the sniffer, UDP, DNS, TCP connection set-up, semaphores, timers, threads,
  random numbers, product data: calls into the system with no property beyond one branch.
- `utils_sha256_free` and `utils_sha256_zeroize`, and the branch for `is224`, which is constantly 0: nothing observable.
- Cryptographic strength: only equality with the standards is stated.
- Failing malloc, a file that existed before with other contents, a failing create_hash_file, fsync, and the unlocked
  lazy opening of the global handle: the handle is open and its file was made by this code.
- Partial effects of one failing row write: a write is all or nothing.
- strcmp running past an item whose key has no NUL: such an item cannot arise from a created file.
- Streaming.ClosingIsPadding: stated below 2^61 bytes, the range for which FIPS 180-4 and a 64-bit length field define
  the padding; Streaming.ClosingWraps says what the code does beyond.
- KvMap.RunAgrees: keys of at most 127 bytes and deletions that make no hole, because beyond them the code does not
  behave as a map; KvTable.SetThenGet and KvMap.DelAgrees draw the line.
- TcpRead.Read: returns if the number of signals is bounded; TcpWrite.Write: returns if the clock reaches the deadline.
  A trace without either bound is not modelled.

# Verified models of TSDuck components

Dafny models of six parts of TSDuck, an MPEG transport stream toolkit, with proofs
of what they promise. `dafny verify dfyconfig.toml` checks the whole project (Dafny 4.11).

- **AES** (`AesTables`, `AesSubstitution`, `AesCipher`, `AesExample`, `Aes`). The block cipher of FIPS 197 as a
  specification, and the class with its key schedules and its table-driven loops of two rounds per iteration.
  The loops refine the specification in both directions, and decryption undoes encryption for all keys and
  blocks. The S-box and its inverse are the tables of the source, and the S-box is proved to be an affine
  transformation of the inverse in GF(2^8). The other tables are given by the products in GF(2^8) that their
  comments state.
- **Tables of descriptors** (`Octets`, `Sections`, `DescriptorLists`, `DescriptorsTable`, `TransportFormat`,
  `TransportSchedule`, `SectionPlan`, `SectionFilling`, `SectionWriter`, `TransportListTable`,
  `TransportRoundTrip`). Lists of MPEG descriptors, and the tables that pack one list, or a list and a map of
  transports (NIT and BAT, sections 5.2.1 and 5.2.2 of ETSI EN 300 468), into sections of at most 1012 bytes of
  payload. Everything is stated on bytes. The plan is what each section holds, as a function of the table and
  its hints, and the loops are proved to follow it. The schedule says in which section each transport starts:
  hints are respected, hinted transports come first, and only the first transport of a section is split.
  Sections are full before others are opened.
- **AVC parser** (`Arithmetic`, `AvcBits`, `AvcCodes`, `AvcParser`, `AvcElements`, `AvcSyntax`, `AvcHrd`,
  `AvcVui`, `AvcSps`, `AvcLayout`). A cursor over raw bytes that drops emulation prevention bytes, Exp-Golomb
  codes, and whole sequence parameter sets, which may hold video usability information, which may hold the
  parameters of two reference decoders (ITU-T H.264). The specification is the sequence of bits of the payload,
  and a structure is a tree: each value that is read decides what comes next. The parsers are tied to it from
  any bit offset, and structures are read back from what an encoder writes.
- **Descrambler** (`DescramblerProtocol`, `DescramblerDelivery`). The packet thread and the ECM thread of a
  descrambler in asynchronous mode, as a transition system over their shared flags, control words, mutex and
  condition variable; every access to shared data is one step. Safety holds in all runs, and the stop ends. New
  ECMs are accepted and picked up, and packets are decrypted.
- **Command lines** (`CommandOptions`, `CommandLine`, `PluginArguments`). The search of options, the state
  machine over arguments and clusters, and the split between plugins.
- **Combinations and BCD** (`Combinations`, `Bcd`). A backtracking search with one mutable set, and decimal
  digits in halves of bytes.

Classes, arrays and loops of the source are classes, arrays and loops here. A class has a function that gives
its abstract value, and its methods are tied to functions about which the lemmas speak.

## What does not hold

- A section number is one byte. Serialization of a table of transports does not limit the number of sections:
  beyond 256, sections replace each other. `TransportRoundTrip.RestoredIff` says exactly when a table is
  restored, as a condition on its plan. With a top-level list, a hint for section 256 or a later one is enough
  to lose it (`TransportRoundTrip.HintBeyondIsNotRestored`).
- The version of a table is any byte, but a section with a version above 31 is not valid and is rejected
  (tsSection.cpp:215-216, tsBinaryTable.cpp:303-309). Such a table has no section and is not restored
  (`TransportRoundTrip.Version32IsNotRestored`, `DescriptorsTable.Version32IsNotRestored`).
- Parsing a sequence parameter set does not clear the object. Offsets are appended to those of the previous one:
  there are as many as announced if and only if there was none before (`AvcSps.SequenceParameterSet.Parse`).
  Parsing a set twice leaves twice its offsets (`AvcSps.ParseTwice`).
- `readBits` compares the number of bits with the raw bits left, which include those of the bytes to drop. With
  00 00 03 as last bytes it goes past the end of the memory area. `AvcBits.ExactGuardIff` says exactly when the
  comparison is right, and `AvcBits.GuardUpTo32` gives a condition on the last four bytes which is enough for 32
  bits.
- The loop over arguments does not always end: when parameters are declared with an optional value, it stays at
  the first parameter. `CommandLine.LoopEndsIff` says exactly when it ends.
- When the last plugin option has no plugin name, the analysis reports an error but may return true; only the
  validity of the object tells it (`PluginArguments.ArgsWithPlugins.Analyze`).
- `tsArgs.h` says that the four forms of an option with a value are equivalent. `CommandLine.EquivalentIff` says
  exactly when they are. An option with the short name `-` is an exception, as `--v` is a long option
  (`CommandLine.ShortDashIsNotEquivalent`); so is an empty value, as `-n` takes the next argument
  (`CommandLine.EmptyValueIsNotEquivalent`, `CommandLine.EmptyValueTakesNext`).
- The documentation of `remainingBits` does not say that the bits of dropped bytes are counted.

## Model

| member | source | states |
|---|---|---|
| `AesSubstitution.SubIsAffineOfInverse` | tsduck/src/src/libtsduck/tsAES.cpp:518-551 | every entry of the S-box is the affine transformation of the inverse of its index in GF(2^8), the inverse being characterised by a product equal to one |
| `AesTables.InvSubSub` | tsduck/src/src/libtsduck/tsAES.cpp:240-308 | the table of the inverse S-box undoes the S-box, on all bytes |
| `AesTables.EncryptColumnIsRound` | tsduck/src/src/libtsduck/tsAES.cpp:1204-1232 | four lookups in Te0 to Te3 make one column of SubBytes, ShiftRows, MixColumns and AddRoundKey |
| `AesTables.EncryptLastIsRound` | tsduck/src/src/libtsduck/tsAES.cpp:1261-1290 | the masked lookups in Te4 make one column of the last round, without MixColumns |
| `AesTables.DecryptColumnIsRound` | tsduck/src/src/libtsduck/tsAES.cpp:1332-1360 | four lookups in Td0 to Td3 make one column of InvSubBytes, InvShiftRows, InvMixColumns and AddRoundKey |
| `AesTables.DecryptLastIsRound` | tsduck/src/src/libtsduck/tsAES.cpp:1390-1419 | the masked lookups in Td4 make one column of the last round of decryption |
| `AesTables.InverseKeyWordIsInvMixColumn` | tsduck/src/src/libtsduck/tsAES.cpp:1140-1163 | the lookups in Tks0 to Tks3 apply InvMixColumns to a word of a round key |
| `AesTables.SetupMixIsSubRot` | tsduck/src/src/libtsduck/tsAES.cpp:1005-1011 | `setup_mix` is SubWord of RotWord |
| `AesTables.SetupMixOfRotated` | tsduck/src/src/libtsduck/tsAES.cpp:1110-1111 | `setup_mix` of a word rotated by eight bits is SubWord alone, as the schedule of 256-bit keys needs in the middle of a turn |
| `AesTables.InvMixMixColumn` | tsduck/src/src/libtsduck/tsAES.cpp:23-35 | InvMixColumns undoes MixColumns on one column |
| `AesCipher.ScheduleIsUnique` | tsduck/src/src/libtsduck/tsAES.cpp:1041-1117 | the recurrence of section 5.2 of FIPS 197 has one solution for each key |
| `AesCipher.InverseCipherUndoesCipher` | tsduck/src/src/libtsduck/tsAES.cpp:1177-1426 | the inverse cipher (section 5.3) undoes the cipher (section 5.1) for any round keys and any number of rounds |
| `AesCipher.EquivalentInverseCipher` | tsduck/src/src/libtsduck/tsAES.cpp:1305-1426 | with reversed round keys, transformed by InvMixColumns except the first and the last, the equivalent inverse cipher (section 5.3.5) is the inverse cipher |
| `AesCipher.DecryptionUndoesEncryption` | tsduck/src/src/libtsduck/tsAES.cpp:1118-1426 | for any block and round keys, the equivalent inverse cipher with the transformed keys gives back the block that was encrypted |
| `Aes.RconTable` | tsduck/src/src/libtsduck/tsAES.cpp:999-1003 | the ten round constants are the powers of x in GF(2^8) |
| `Aes.BlockCipher.SetKey` | tsduck/src/src/libtsduck/tsAES.cpp:1020-1169 | accepts exactly 16, 24 and 32 bytes, with zero rounds or six more than the words of the key; there are then 10, 12 or 14 rounds, and the round keys are the whole schedule of the standard in both directions; otherwise nothing changes |
| `Aes.BlockCipher.Schedule128` | tsduck/src/src/libtsduck/tsAES.cpp:1055-1068 | fills 44 words with the key schedule of a 128-bit key |
| `Aes.BlockCipher.Schedule192` | tsduck/src/src/libtsduck/tsAES.cpp:1069-1090 | fills 52 words with the key schedule of a 192-bit key |
| `Aes.BlockCipher.Schedule256` | tsduck/src/src/libtsduck/tsAES.cpp:1091-1117 | fills 60 words with the key schedule of a 256-bit key |
| `Aes.BlockCipher.SetInverseKey` | tsduck/src/src/libtsduck/tsAES.cpp:1124-1172 | fills the decryption keys: the reversed round keys, transformed by InvMixColumns except the first and the last |
| `Aes.BlockCipher.EncryptBlock` | tsduck/src/src/libtsduck/tsAES.cpp:1189-1290 | the loop of two rounds per iteration with table lookups computes the cipher of section 5.1 for 10, 12 and 14 rounds |
| `Aes.BlockCipher.Encrypt` | tsduck/src/src/libtsduck/tsAES.cpp:1177-1297 | checks both sizes; on success exactly the first 16 bytes of the output change, to the cipher of the input |
| `Aes.BlockCipher.DecryptBlock` | tsduck/src/src/libtsduck/tsAES.cpp:1317-1419 | the loop of two rounds per iteration with table lookups computes the equivalent inverse cipher |
| `Aes.BlockCipher.Decrypt` | tsduck/src/src/libtsduck/tsAES.cpp:1305-1426 | checks both sizes; on success exactly the first 16 bytes of the output change, to the inverse cipher with the encryption keys |
| `Aes.EncryptThenDecrypt` | tsduck/src/src/libtsduck/tsAES.cpp:1020-1426 | for every key that is accepted and every block, decryption gives back the block that was encrypted |
| `AesExample.WordOf128` | tsduck/src/src/libtsduck/tsAES.cpp:1055-1068 | the first new word of the schedule of appendix A.1 of FIPS 197 |
| `AesExample.WordOf192` | tsduck/src/src/libtsduck/tsAES.cpp:1069-1090 | the first new word of the schedule of appendix A.2 |
| `AesExample.WordOf256` | tsduck/src/src/libtsduck/tsAES.cpp:1091-1117 | the word of the schedule of appendix A.3 that 256-bit keys compute in another way |
| `AesExample.FirstRound` | tsduck/src/src/libtsduck/tsAES.cpp:1204-1232 | round 1 of the example of appendix B |
| `AesExample.LastRound` | tsduck/src/src/libtsduck/tsAES.cpp:1261-1290 | the last round of the example of appendix B |
| `DescriptorLists.ParseBytes` | tsduck/src/src/libtsduck/tsDescriptorList.cpp:145-155 | reading the binary form of a list gives back the list |
| `DescriptorLists.FitIsLongest` | tsduck/src/src/libtsduck/tsDescriptorList.cpp:297-309 | the descriptors that are serialized are the longest run from the first one that fits |
| `DescriptorLists.AddFromMemory` | tsduck/src/src/libtsduck/tsDescriptorList.cpp:145-155 | the descriptors of a memory area are appended, up to the first truncated one |
| `DescriptorLists.Serialize` | tsduck/src/src/libtsduck/tsDescriptorList.cpp:297-309 | writes the bytes of the longest run that fits and nothing before them; updates address and size |
| `DescriptorLists.LengthSerialize` | tsduck/src/src/libtsduck/tsDescriptorList.cpp:345-362 | the same after a 16-bit length with reserved bits |
| `TransportFormat.ParseContentBytes` | tsduck/src/src/libtsduck/tsAbstractTransportListTable.cpp:123-161 | reading the payload of a section gives exactly its descriptors and transport entries |
| `TransportFormat.EntryLayout` | tsduck/src/src/libtsduck/tsAbstractTransportListTable.cpp:360-368 | the bytes of an entry: transport stream id, original network id and length with reserved bits, on two bytes each, then the descriptors |
| `TransportFormat.ContentLayout` | tsduck/src/src/libtsduck/tsAbstractTransportListTable.cpp:170-190 | the bytes of a payload: two lengths with reserved bits, each one before its list |
| `TransportFormat.ReadAllSections` | tsduck/src/src/libtsduck/tsAbstractTransportListTable.cpp:107-162 | reading all sections gives the concatenation of their top-level lists and the sum of their transport loops |
| `TransportFormat.NoSectionReplaced` | tsduck/src/src/libtsduck/tsBinaryTable.cpp:303-375 | with a version up to 31 and up to 256 sections, section numbers differ and all sections stay in the table |
| `TransportFormat.AtMost256Sections` | tsduck/src/src/libtsduck/tsBinaryTable.cpp:303-375 | the table never has more than 256 sections, and none when the version is above 31, as each section is rejected |
| `SectionWriter.Writer.AddSection` | tsduck/src/src/libtsduck/tsAbstractTransportListTable.cpp:170-190 | closes the section: its payload is the binary form of its content; room and position are reset; the table is what `addSection` makes of the sections so far, which keeps none of an impossible version |
| `SectionWriter.Writer.AddSectionInLoop` | tsduck/src/src/libtsduck/tsAbstractTransportListTable.cpp:197-219 | patches the length of the transport loop, closes the section, added as above, and opens one with an empty top-level list |
| `SectionWriter.Writer.PutDescs` | tsduck/src/src/libtsduck/tsAbstractTransportListTable.cpp:290-295 | writes as many top-level descriptors as fit, two bytes being kept |
| `SectionWriter.Writer.PutEntry` | tsduck/src/src/libtsduck/tsAbstractTransportListTable.cpp:360-368 | writes the characteristics of a transport and as many descriptors as fit, within the room left |
| `SectionPlan.NextProgress` | tsduck/src/src/libtsduck/tsAbstractTransportListTable.cpp:328-378 | one turn of the loop: the next transport, by hints and order, is written with all its descriptors, and the schedule is kept |
| `SectionPlan.TransportIsWritten` | tsduck/src/src/libtsduck/tsAbstractTransportListTable.cpp:354-378 | all descriptors of a transport are written in order, each piece within the room left; it goes on in later sections only as their first entry |
| `SectionPlan.LoopProgress` | tsduck/src/src/libtsduck/tsAbstractTransportListTable.cpp:319-379 | every transport is written once; ends although transports are pushed back, by the distance to the hints |
| `SectionPlan.PlanIsRight` | tsduck/src/src/libtsduck/tsAbstractTransportListTable.cpp:263-383 | the sections hold the top-level list in order and exactly the transports of the table, and the schedule follows the hints, for every table and all hints |
| `SectionFilling.PlanIsFull` | tsduck/src/src/libtsduck/tsAbstractTransportListTable.cpp:263-383 | each section is followed by another one only when the next descriptor of the top-level list does not fit in it, when its last transport goes on there as its next descriptor does not fit, or when transports remain and all are hinted for later sections or the next one does not fit; each transport that begins is the next one, by hints then ids; said of what the sections hold |
| `SectionFilling.TransportFills` | tsduck/src/src/libtsduck/tsAbstractTransportListTable.cpp:354-378 | the pieces of a transport are as long as possible and in consecutive sections |
| `SectionFilling.OpensWhenFull` | tsduck/src/src/libtsduck/tsAbstractTransportListTable.cpp:319-352 | a section is closed before a transport only when nothing can go in it |
| `TransportListTable.GetNextTransport` | tsduck/src/src/libtsduck/tsAbstractTransportListTable.cpp:228-256 | chooses the first transport hinted for the section, else the first one without hint or with a past one; fails exactly when all hints are later |
| `TransportListTable.SerializeDescs` | tsduck/src/src/libtsduck/tsAbstractTransportListTable.cpp:285-310 | the first loop writes the plan of the top-level list, whatever its length |
| `TransportListTable.FindTransport` | tsduck/src/src/libtsduck/tsAbstractTransportListTable.cpp:322-333 | opens sections until a transport can be chosen, as in the plan; ends by the distance to the hint |
| `TransportListTable.SerializeTransport` | tsduck/src/src/libtsduck/tsAbstractTransportListTable.cpp:354-378 | the inner loop follows the plan of one transport |
| `TransportListTable.SerializeTransports` | tsduck/src/src/libtsduck/tsAbstractTransportListTable.cpp:319-379 | the outer loop follows the plan of all transports, pushing back those that do not fit, as `SectionFilling.PlanIsFull` says |
| `TransportSchedule.ScheduleStart` | tsduck/src/src/libtsduck/tsAbstractTransportListTable.cpp:328-352 | starting a chosen transport in the current section keeps the schedule: hints respected, hinted transports first, splits only for first entries |
| `TransportSchedule.ScheduleContinuation` | tsduck/src/src/libtsduck/tsAbstractTransportListTable.cpp:375-378 | going on with a transport in a new section keeps the schedule |
| `TransportListTable.TransportListTable.Serialize` | tsduck/src/src/libtsduck/tsAbstractTransportListTable.cpp:263-383 | the sections are those of the plan, of which `SectionPlan.PlanIsRight`, `SectionFilling.PlanIsFull` and `TransportRoundTrip.RestoredIff` speak; none for an invalid table |
| `TransportListTable.TransportListTable.Deserialize` | tsduck/src/src/libtsduck/tsAbstractTransportListTable.cpp:83-162 | a table is cleared, then read section by section, up to the first unexpected or truncated one; NIT Actual and NIT Other are compatible |
| `TransportListTable.TransportListTable.ReadPayload` | tsduck/src/src/libtsduck/tsAbstractTransportListTable.cpp:123-161 | one payload: lengths are limited to what remains; descriptors are added after those that were there |
| `TransportListTable.TransportListTable.ReadLoop` | tsduck/src/src/libtsduck/tsAbstractTransportListTable.cpp:148-161 | the transport loop: descriptors are added to new or existing transports in order |
| `TransportRoundTrip.DeserializeSerialized` | tsduck/src/src/libtsduck/tsAbstractTransportListTable.cpp:83-383 | any object of a compatible kind, NIT Actual and NIT Other being compatible, becomes the table after reading its sections, with a version up to 31 and up to 256 sections |
| `TransportRoundTrip.LastWriterWins` | tsduck/src/src/libtsduck/tsBinaryTable.cpp:303-375 | with a version up to 31, a section stays in the table until the section 256 places later replaces it |
| `TransportRoundTrip.RestoredIff` | tsduck/src/src/libtsduck/tsAbstractTransportListTable.cpp:83-383 | restored if and only if the object is of a compatible kind, the version is at most 31 and the plan, a function of descriptors, transports and hints, either has at most 256 sections, or has nothing in those that are replaced and no transport whose pieces are exchanged in a way that matters |
| `TransportRoundTrip.SurvivesWithTopLevelList` | tsduck/src/src/libtsduck/tsAbstractTransportListTable.cpp:263-383 | with a top-level list, the number of sections in the plan decides alone |
| `TransportRoundTrip.SectionsBeyondHint` | tsduck/src/src/libtsduck/tsAbstractTransportListTable.cpp:228-256 | a table has more sections than the hint of any of its transports |
| `TransportRoundTrip.HintBeyondIsNotRestored` | tsduck/src/src/libtsduck/tsAbstractTransportListTable.cpp:181-182 | with a top-level list and a transport hinted for section 256 or a later one, the table is not restored |
| `TransportRoundTrip.SmallTableIsNotRestored` | tsduck/src/src/libtsduck/tsAbstractTransportListTable.cpp:181-182 | one of them: one descriptor, and one transport without descriptors hinted for section 256 |
| `TransportRoundTrip.OneTransportIsRestored` | tsduck/src/src/libtsduck/tsAbstractTransportListTable.cpp:263-383 | without a top-level list, a table with one transport that fits in a section is restored whatever its hint |
| `TransportRoundTrip.Version32IsNotRestored` | tsduck/src/src/libtsduck/tsSection.cpp:215-216 | a table of version 32 has no section and is not restored |
| `DescriptorsTable.GreedyIsSplit` | tsduck/src/src/libtsduck/tsAbstractDescriptorsTable.cpp:130-150 | the payloads concatenate back to the list, each one fits and none is empty |
| `DescriptorsTable.GreedyIsShortest` | tsduck/src/src/libtsduck/tsAbstractDescriptorsTable.cpp:121-150 | no split of the list, in order, into payloads of the maximum size has fewer parts |
| `DescriptorsTable.RoundTrip` | tsduck/src/src/libtsduck/tsAbstractDescriptorsTable.cpp:74-151 | with the same table id and a version up to 31, deserialization gives a prefix of the list; it gives the same table if and only if the table id is the same, the version is at most 31 and the list can be split into at most 256 payloads |
| `DescriptorsTable.Version32IsNotRestored` | tsduck/src/src/libtsduck/tsBinaryTable.cpp:303-309 | a table of version 32 has no section and is not restored |
| `DescriptorsTable.DescriptorsTable.Serialize` | tsduck/src/src/libtsduck/tsAbstractDescriptorsTable.cpp:111-151 | one section for each part of the greedy split, at least one and at most 256; none for an invalid table or a version above 31 |
| `DescriptorsTable.DescriptorsTable.Deserialize` | tsduck/src/src/libtsduck/tsAbstractDescriptorsTable.cpp:74-104 | the lists of all sections are appended; a table with another table id is not valid |
| `AvcBits.ExactGuardIff` | tsduck/src/src/libtsduck/tsAVCParser.cpp:98-102 | the count of raw bits is right about the payload, for all numbers of bits, if and only if no byte is to be dropped after the current one |
| `AvcBits.GuardUpTo32` | tsduck/src/src/libtsduck/tsAVCParserTemplate.h:64-67 | without dropped bytes among the last four ones, the count is right for up to 32 bits |
| `AvcBits.GuardFailsOnFinalDroppedByte` | tsduck/src/src/libtsduck/tsAVCParserTemplate.h:64-67 | with 00 00 03, 24 raw bits are counted for 16 payload bits |
| `AvcBits.PayloadIsUnescaped` | tsduck/src/src/libtsduck/tsAVCParser.cpp:145-152 | looking two bytes back at each byte removes the same bytes as reading the NAL unit from left to right (section 7.3.1 of ITU-T H.264) |
| `AvcBits.UnescapeEscape` | tsduck/src/src/libtsduck/tsAVCParser.cpp:145-152 | removing emulation prevention bytes undoes their insertion |
| `AvcParser.Parser.constructor` | tsduck/src/src/libtsduck/tsAVCParser.cpp:43-51 | the parser sees the bits of the payload of the whole area |
| `AvcParser.Parser.Reset` | tsduck/src/src/libtsduck/tsAVCParser.cpp:74-80 | moves to a raw bit of the area or to its end |
| `AvcParser.Parser.RemainingBytes` | tsduck/src/src/libtsduck/tsAVCParser.cpp:87-91 | the number of remaining bits, divided by eight and rounded down |
| `AvcParser.Parser.RemainingBits` | tsduck/src/src/libtsduck/tsAVCParser.cpp:98-102 | the payload bits that are left, and eight bits for each byte that will be dropped |
| `AvcParser.Parser.RbspTrailingBits` | tsduck/src/src/libtsduck/tsAVCParser.cpp:110-127 | succeeds exactly when a one and zeros up to the end of the byte come next, and then skips them; otherwise the cursor does not move |
| `AvcParser.Parser.NextByte` | tsduck/src/src/libtsduck/tsAVCParser.cpp:134-153 | moves to the next byte of the payload |
| `AvcParser.Parser.NextBit` | tsduck/src/src/libtsduck/tsAVCParser.cpp:160-169 | gives the next bit of the payload and moves by one bit |
| `AvcParser.Parser.ReadBits` | tsduck/src/src/libtsduck/tsAVCParserTemplate.h:58-89 | refuses exactly when raw bits are missing; with n payload bits left, gives their value in the width of the integer type and moves by n bits, from any bit offset |
| `AvcParser.Parser.ReadLoops` | tsduck/src/src/libtsduck/tsAVCParserTemplate.h:69-86 | the three loops read exactly the next n payload bits |
| `AvcParser.Parser.NextBits` | tsduck/src/src/libtsduck/tsAVCParserTemplate.h:38-50 | the same value as `readBits`, without moving |
| `AvcParser.Parser.ExpGolomb` | tsduck/src/src/libtsduck/tsAVCParserTemplate.h:97-117 | gives the code number of section 9.1 and moves to its end; fails when bits are missing; nothing is known of codes that are too long for the integer type |
| `AvcParser.Parser.LeadingZeroBits` | tsduck/src/src/libtsduck/tsAVCParserTemplate.h:101-110 | skips zeros and the first one, or fails when there is no one |
| `AvcParser.Parser.Se` | tsduck/src/src/libtsduck/tsAVCParserTemplate.h:126-136 | gives the signed value of section 9.1.1 |
| `AvcParser.Parser.Ue` | tsduck/src/src/libtsduck/tsAVCParser.h:168-174 | unsigned Exp-Golomb codes |
| `AvcParser.Parser.U` | tsduck/src/src/libtsduck/tsAVCParser.h:138-144 | n bits that the integer type can hold; never goes past the end for up to 32 bits when no byte is dropped among the last four ones |
| `AvcCodes.DecodeEncodeUe` | tsduck/src/src/libtsduck/tsAVCParserTemplate.h:97-117 | decoding an Exp-Golomb code gives back the number, whatever comes next |
| `AvcCodes.EncodeDecodeUe` | tsduck/src/src/libtsduck/tsAVCParserTemplate.h:97-117 | what was decoded has only one code, which is what was read |
| `AvcCodes.UeIsNextNumber` | tsduck/src/src/libtsduck/tsAVCParserTemplate.h:97-117 | the code of a number is the next number in binary, after as many zeros as it has bits less one |
| `AvcCodes.SignedTable` | tsduck/src/src/libtsduck/tsAVCParserTemplate.h:126-136 | odd code numbers stand for positive values and even ones for the other values, as in table 9-3 |
| `AvcCodes.SignedRoundTrip` | tsduck/src/src/libtsduck/tsAVCParserTemplate.h:126-131 | with a division that truncates toward zero, the formula for signed values is a bijection between code numbers and integers |
| `AvcCodes.DecodeEncodeSe` | tsduck/src/src/libtsduck/tsAVCParserTemplate.h:126-136 | decoding a signed code gives back the number |
| `AvcElements.DecodeEncodeAll` | tsduck/src/src/libtsduck/tsAVCParserTemplate.h:58-136 | any list of values written back to back is read back |
| `AvcElements.ReadElements` | tsduck/src/src/libtsduck/tsAVCParserTemplate.h:58-136 | successive calls of the parser read a list of values |
| `AvcElements.ReadBack` | tsduck/src/src/libtsduck/tsAVCParserTemplate.h:58-136 | values written back to back in an escaped payload are read back, and the parser stops exactly at their end |
| `AvcSyntax.DecodeEncodeSyntax` | tsduck/src/src/libtsduck/tsAVCSequenceParameterSet.cpp:229-332 | for any structure whose next element depends on the values before, reading what was written gives it back, whatever comes next |
| `AvcSyntax.EncodeDecodeSyntax` | tsduck/src/src/libtsduck/tsAVCSequenceParameterSet.cpp:229-332 | the values that were read follow the structure, and were written in the only way |
| `AvcSyntax.WrittenByKinds` | tsduck/src/src/libtsduck/tsAVCSequenceParameterSet.cpp:229-332 | a structure whose values have some kinds is the list of their codes, and all values that fit are possible |
| `AvcSyntax.ReadField` | tsduck/src/src/libtsduck/tsAVCParserTemplate.h:97-136 | one call of the parser reads the next element of any structure, and consumes bits |
| `AvcHrd.HrdParameters.Parse` | tsduck/src/src/libtsduck/tsAVCHRDParameters.cpp:84-115 | inside another structure or not: valid parameters have exactly `cpb_cnt_minus1 + 1` entries in each list, and their fields are all the values that were read |
| `AvcHrd.HrdParameters.ParseArea` | tsduck/src/src/libtsduck/tsAbstractAVCStructure.cpp:43-52 | valid when all parameters are there, and then all fields are theirs, and not valid when some are missing, as long as codes are in range; no read goes past the end when no byte is dropped among the last four ones |
| `AvcHrd.HrdParameters.ParseCpbs` | tsduck/src/src/libtsduck/tsAVCHRDParameters.cpp:93-106 | the loop appends one entry to each list at each turn; it ends because each turn consumes bits |
| `AvcHrd.HrdParameters.Clear` | tsduck/src/src/libtsduck/tsAVCHRDParameters.cpp:64-77 | all fields are cleared |
| `AvcLayout.HrdLayout` | tsduck/src/src/libtsduck/tsAVCHRDParameters.cpp:84-115 | the kinds of all values, for any number of coded picture buffers |
| `AvcLayout.HrdFields` | tsduck/src/src/libtsduck/tsAVCHRDParameters.cpp:84-115 | the field that holds each value |
| `AvcVui.VuiParameters.Parse` | tsduck/src/src/libtsduck/tsAVCVUIParameters.cpp:132-217 | when valid, each reference decoder that is present has all its entries, the fields are all the values that were read, and the fields that are not present are zero |
| `AvcVui.VuiParameters.ParseHrds` | tsduck/src/src/libtsduck/tsAVCVUIParameters.cpp:185-199 | both reference decoders are parsed with the same code into two objects, then the flag that is present if one of them is |
| `AvcVui.VuiParameters.ParseArea` | tsduck/src/src/libtsduck/tsAbstractAVCStructure.cpp:43-52 | valid when all of the structure is there, and then all fields are its values, and not valid when some are missing, as long as codes are in range; no read goes past the end when no byte is dropped among the last four ones |
| `AvcLayout.VuiLayout` | tsduck/src/src/libtsduck/tsAVCVUIParameters.cpp:132-217 | the kinds of all values, in the order of section E.1.1, with all parts but the reference decoders |
| `AvcLayout.HrdsLayout` | tsduck/src/src/libtsduck/tsAVCVUIParameters.cpp:185-199 | the same for two reference decoders and their common flag |
| `AvcLayout.SignalLayout` | tsduck/src/src/libtsduck/tsAVCVUIParameters.cpp:153-166 | kinds and fields of the video signal; the other parts have such a lemma |
| `AvcSps.SequenceParameterSet.Parse` | tsduck/src/src/libtsduck/tsAbstractAVCAccessUnit.cpp:69-88 | valid when this is a complete sequence parameter set, and then all fields are its values, the one after the header being the chroma format for the seven profiles that have one and the size of frame numbers for the other ones; not valid when it is not, as long as codes are in range; no read goes past the end when no byte is dropped among the last four ones; fields that are not present keep their values; with type 1, there is one offset for each reference frame if and only if there was none before |
| `AvcSps.SequenceParameterSet.constructor` | tsduck/src/src/libtsduck/tsAVCSequenceParameterSet.cpp:41-84 | the same from a cleared object: with type 1, there is one offset for each reference frame |
| `AvcSps.SequenceParameterSet.ParseBody` | tsduck/src/src/libtsduck/tsAVCSequenceParameterSet.cpp:229-332 | reads the fields of the syntax of section 7.3.2.1.1 in order, with the chroma format for the seven profiles that have one, then the trailing bits; reads nothing of another access unit |
| `AvcSps.SequenceParameterSet.ParseLists` | tsduck/src/src/libtsduck/tsAVCSequenceParameterSet.cpp:252-273 | the loops over scaling lists read what is present and nothing after a scale of zero |
| `AvcSps.SequenceParameterSet.ParseOffsets` | tsduck/src/src/libtsduck/tsAVCSequenceParameterSet.cpp:288-294 | the loop over offsets appends all of them; it ends because each turn consumes bits |
| `AvcSps.SequenceParameterSet.ParseTrailing` | tsduck/src/src/libtsduck/tsAVCSequenceParameterSet.cpp:326-329 | the trailing bits are valid exactly when a one and zeros come up to the next byte; what is left is counted after them |
| `AvcSps.ReadBack` | tsduck/src/src/libtsduck/tsAVCSequenceParameterSet.cpp:229-332 | the values of a sequence parameter set that are written and escaped are read back, profile, level, id and what follows being in their fields, and the trailing bits are found |
| `AvcSps.FieldsInPlace` | tsduck/src/src/libtsduck/tsAVCSequenceParameterSet.cpp:242-250 | for profiles 44, 83, 86, 100, 110, 122 and 244 the value after the header is the chroma format, else the size of frame numbers |
| `AvcLayout.BaselineLayout` | tsduck/src/src/libtsduck/tsAVCSequenceParameterSet.cpp:229-332 | the kinds of all values of a set without extension, with order type 0 and cropping |
| `AvcLayout.HighLayout` | tsduck/src/src/libtsduck/tsAVCSequenceParameterSet.cpp:229-332 | the same for a set with extension and two offsets of order type 1 |
| `AvcLayout.PlaneLayout` | tsduck/src/src/libtsduck/tsAVCSequenceParameterSet.cpp:242-251 | the flag of separate colour planes is read with chroma format 3 |
| `AvcLayout.MatrixLayout` | tsduck/src/src/libtsduck/tsAVCSequenceParameterSet.cpp:252-273 | a scaling matrix has 8 lists, or 12 with chroma format 3 |
| `AvcLayout.ListLayout` | tsduck/src/src/libtsduck/tsAVCSequenceParameterSet.cpp:258-271 | a scaling list has 16 or 64 differences, and ends after a scale of zero |
| `AvcSps.ParseTwice` | tsduck/src/src/libtsduck/tsAVCSequenceParameterSet.cpp:288-294 | a set of type 1 that is parsed twice by one object leaves twice its offsets |
| `DescramblerProtocol.InvOnRuns` | tsduck/src/src/libtsduck/tsAbstractDescrambler.cpp:302-561 | the invariant of the two threads holds in every state of every run; `DescramblerDelivery` says what runs deliver |
| `DescramblerProtocol.EcmStepStreams` | tsduck/src/src/libtsduck/tsAbstractDescrambler.cpp:358-408 | every step of the ECM thread keeps what holds of each stream, as flags are set before the control words and both before `cw_valid` |
| `DescramblerProtocol.PacketStepStreams` | tsduck/src/src/libtsduck/tsAbstractDescrambler.cpp:519-561 | every step of the packet thread keeps what holds of each stream |
| `DescramblerProtocol.EcmStepThreads` | tsduck/src/src/libtsduck/tsAbstractDescrambler.cpp:416-467 | every step of the ECM thread keeps mutual exclusion, the state of the scan and the state of the wait |
| `DescramblerProtocol.PacketStepThreads` | tsduck/src/src/libtsduck/tsAbstractDescrambler.cpp:182-194 | every step of the packet thread keeps mutual exclusion and signals what it changes |
| `DescramblerProtocol.InstalledKeyIsLast` | tsduck/src/src/libtsduck/tsAbstractDescrambler.cpp:392-408 | while the flag of a parity is clear in a valid stream, the installed key is the last published control word |
| `DescramblerProtocol.WordsOfLastEcm` | tsduck/src/src/libtsduck/tsAbstractDescrambler.cpp:387-407 | outside the protected area, the control words are those of the last ECM that was deciphered, although unchanged ones are skipped; so are the keys whose flag is clear |
| `DescramblerProtocol.DecryptsWithRecentKey` | tsduck/src/src/libtsduck/tsAbstractDescrambler.cpp:521-561 | a packet is decrypted with a published control word of its parity which is not older than the last one published when its flag was checked |
| `DescramblerProtocol.NoLostWakeUp` | tsduck/src/src/libtsduck/tsAbstractDescrambler.cpp:330-348 | when the ECM thread waits without a signal and the mutex is free, every accepted ECM was picked up or replaced, and no stop is requested |
| `DescramblerProtocol.NothingPickedAfterStop` | tsduck/src/src/libtsduck/tsAbstractDescrambler.cpp:416-467 | once the stop is requested, no ECM is picked up |
| `DescramblerProtocol.JoinEnds` | tsduck/src/src/libtsduck/tsAbstractDescrambler.cpp:182-194 | while the end of the ECM thread is awaited, a step is always possible and every step brings the end nearer |
| `DescramblerProtocol.JoinIsShort` | tsduck/src/src/libtsduck/tsAbstractDescrambler.cpp:182-194 | the ECM thread makes at most 12 steps before it ends |
| `DescramblerProtocol.NoDeadlock` | tsduck/src/src/libtsduck/tsAbstractDescrambler.cpp:302-561 | while the packet thread has something to do, one of the threads can make a step |
| `DescramblerProtocol.CatchesUp` | tsduck/src/src/libtsduck/tsAbstractDescrambler.cpp:416-467 | while the packet thread stays idle, the ECM thread can make a step or waits, makes no more steps than a bound on its work before it waits, and has then picked up every ECM that was accepted |
| `DescramblerProtocol.LessWork` | tsduck/src/src/libtsduck/tsAbstractDescrambler.cpp:416-467 | each step of the ECM thread leaves less work, with a packet thread that is idle: the ECM thread is nearer to the end of a last scan, or has one ECM less to pick up |
| `DescramblerDelivery.TidOfHistory` | tsduck/src/src/libtsduck/tsAbstractDescrambler.cpp:315-322 | the last table id of a stream is that of the last section on its PID, or 0xFF |
| `DescramblerDelivery.NewEcmIsAccepted` | tsduck/src/src/libtsduck/tsAbstractDescrambler.cpp:316-336 | a section with another table id than the one before on its PID, which the subclass can handle, is copied and flagged by the next steps of the packet thread, under the mutex |
| `DescramblerDelivery.NewEcmIsPicked` | tsduck/src/src/libtsduck/tsAbstractDescrambler.cpp:316-348 | after five steps of the packet thread the ECM is there, and the ECM thread has picked up this very ECM when it waits again |
| `DescramblerDelivery.OtherSectionsAcceptNothing` | tsduck/src/src/libtsduck/tsAbstractDescrambler.cpp:308-329 | a section on another PID, with the same table id or that is not handled accepts nothing |
| `DescramblerDelivery.OnlyNewEcmIsAccepted` | tsduck/src/src/libtsduck/tsAbstractDescrambler.cpp:316-336 | what is accepted always comes from such a new ECM on the same PID |
| `DescramblerDelivery.DeciphersPicked` | tsduck/src/src/libtsduck/tsAbstractDescrambler.cpp:358-371 | the ECM that is deciphered is the last one that was picked up |
| `DescramblerDelivery.DecipheredIsPublished` | tsduck/src/src/libtsduck/tsAbstractDescrambler.cpp:371-408 | when an ECM is deciphered, both control words are published before the ECM thread goes on |
| `DescramblerDelivery.PacketIsDecrypted` | tsduck/src/src/libtsduck/tsAbstractDescrambler.cpp:500-561 | a packet with a valid ECM stream among its PIDs is decrypted with the key of its parity before the packet thread is idle again |
| `Combinations.Enumeration.Search` | tsduck/src/src/libtsduck/tsAlgorithmTemplate.h:46-70 | calls the predicate for each way to add `level` values, in order, until it answers false; the current set is left as it was found |
| `Combinations.EnumerateCombinations` | tsduck/src/src/libtsduck/tsAlgorithmTemplate.h:78-110 | the calls are those for the list of all combinations, until the predicate answers false; none when there is no combination |
| `Combinations.AllOfSizeIsComplete` | tsduck/src/src/libtsduck/tsAlgorithmTemplate.h:46-70 | exactly the sets of k values are enumerated |
| `Combinations.AllOfSizeInOrder` | tsduck/src/src/libtsduck/tsAlgorithmTemplate.h:46-70 | they come in lexicographic order |
| `Combinations.CallAllStopsAtFirstFalse` | tsduck/src/src/libtsduck/tsAlgorithmTemplate.h:59-67 | the calls are a prefix of the list, which is all of it or ends at the first false answer |
| `Combinations.EachOnce` | tsduck/src/src/libtsduck/tsAlgorithmTemplate.h:46-70 | no combination comes twice |
| `Combinations.FixedAdded` | tsduck/src/src/libtsduck/tsAlgorithmTemplate.h:98-109 | adding the fixed values to the combinations of the other ones gives all combinations that contain them, in order |
| `Combinations.NoCombination` | tsduck/src/src/libtsduck/tsAlgorithmTemplate.h:83-91 | in the three cases that return at once, there is no combination |
| `CommandOptions.AddOption` | tsduck/src/src/libtsduck/tsArgs.cpp:356-373 | the option replaces the one with its name and takes its short name from the one that had it; names stay in order and short names unique |
| `CommandOptions.FindName` | tsduck/src/src/libtsduck/tsArgs.cpp:545-582 | finds the option with the very name, else the only one that it abbreviates, else none; relies on the order of names |
| `CommandOptions.SearchFindsNamed` | tsduck/src/src/libtsduck/tsArgs.cpp:545-582 | the loop with one remembered candidate is that search |
| `CommandOptions.FindShort` | tsduck/src/src/libtsduck/tsArgs.cpp:529-538 | finds the first option with a short name |
| `CommandOptions.ShortIsUnique` | tsduck/src/src/libtsduck/tsArgs.cpp:361-369 | an option is found by its short name |
| `CommandLine.Args.Analyze` | tsduck/src/src/libtsduck/tsArgs.cpp:752-922 | all values are those of the state machine over arguments and clusters, of which the lemmas below speak; the object is valid if and only if no error occurs and numbers of values are allowed; for all command lines on which the loop ends |
| `CommandLine.ValuesInOrder` | tsduck/src/src/libtsduck/tsArgs.cpp:885-886 | the values of every option after some arguments come first after more arguments |
| `CommandLine.OccurrenceIsLast` | tsduck/src/src/libtsduck/tsArgs.cpp:763-886 | an occurrence in any form adds its value after those of the option, and changes no other option |
| `CommandLine.FlagIsLast` | tsduck/src/src/libtsduck/tsArgs.cpp:818-826 | an option without a value is added once more |
| `CommandLine.ParameterIsLast` | tsduck/src/src/libtsduck/tsArgs.cpp:774-780 | a parameter is added after the other ones, and forces the rest to be parameters if the syntax says so |
| `CommandLine.RejectedIsError` | tsduck/src/src/libtsduck/tsArgs.cpp:848-886 | a value that is rejected is an error and is not stored |
| `CommandLine.UnknownIsError` | tsduck/src/src/libtsduck/tsArgs.cpp:813-816 | an option that is not declared or is ambiguous is an error |
| `CommandLine.Args.AnalyzeNext` | tsduck/src/src/libtsduck/tsArgs.cpp:758-886 | one iteration: indexes into the arguments follow the state machine |
| `CommandLine.Args.LocateOption` | tsduck/src/src/libtsduck/tsArgs.cpp:763-811 | locates the option in a cluster, a parameter, a long option or a short one |
| `CommandLine.RunWithMore` | tsduck/src/src/libtsduck/tsArgs.cpp:758-886 | after arguments that are accepted, the analysis goes on as if the other arguments came first, with the values so far |
| `CommandLine.StepOfForm` | tsduck/src/src/libtsduck/tsArgs.cpp:763-886 | `--name v`, `--name=v`, `-n v` and `-nv` have the same effect when they give the value to the option |
| `CommandLine.EquivalentIff` | tsduck/src/src/libtsduck/tsArgs.h:85-90 | for a value that the option accepts, a form can replace `--name=v` anywhere on a command line if and only if its short name, if it has one, is not `-`, and the value of `-nv` is not empty, or else the text after two dashes is the same option with a value that is stored in the same way; it is enough to look at a command line with nothing else |
| `CommandLine.FormsAreEquivalent` | tsduck/src/src/libtsduck/tsArgs.h:85-90 | two forms that give the value can replace each other anywhere on a command line, with any names of the option: values, validity and the end of the loop are the same |
| `CommandLine.EmptyValueTakesNext` | tsduck/src/src/libtsduck/tsArgs.cpp:838-846 | `-n` with an empty value takes the next argument as its value, and is an error when there is none |
| `CommandLine.EmptyValueIsNotEquivalent` | tsduck/src/src/libtsduck/tsArgs.cpp:838-846 | an empty value that the option accepts is given by `--name=` and not by `-n` |
| `CommandLine.ShortDashIsNotEquivalent` | tsduck/src/src/libtsduck/tsArgs.cpp:789-801 | with the short name `-`, `--o=x` gives a value and `--x` is an error |
| `CommandLine.ClusterIsSplit` | tsduck/src/src/libtsduck/tsArgs.cpp:763-771 | a cluster of short options can be replaced by separate ones anywhere on a command line, when the first one has no value |
| `CommandLine.StoppedWithMore` | tsduck/src/src/libtsduck/tsArgs.cpp:758-886 | after a rejection for another reason than a missing value, or at a parameter that is not taken, more arguments change neither the values nor the validity |
| `CommandLine.StuckForever` | tsduck/src/src/libtsduck/tsArgs.cpp:774-780 | at a parameter, when parameters do not have a mandatory value, no argument is ever taken and a value is stored at each iteration |
| `CommandLine.LoopEndsIff` | tsduck/src/src/libtsduck/tsArgs.cpp:758-886 | the loop ends if and only if parameters have a mandatory value, or are not allowed, or no state that is reached is at a parameter; for all syntaxes and command lines |
| `PluginArguments.ArgsWithPlugins.Analyze` | tsduck/src/src/libtsduck/tsArgsWithPlugins.cpp:84-166 | the command, the plugins in order of appearance and maybe a last marker without a name rebuild the arguments; the default plugins of a type are used exactly when the command line has none; the object is valid if and only if the result is positive and no name is missing |
| `PluginArguments.OfTypeInOrder` | tsduck/src/src/libtsduck/tsArgsWithPlugins.cpp:110-133 | the plugins of a type are those of the groups that have it, at increasing places, with their names and arguments |
| `PluginArguments.ArgsWithPlugins.LocatePlugins` | tsduck/src/src/libtsduck/tsArgsWithPlugins.cpp:110-133 | the loop over plugins loses no argument |
| `PluginArguments.ArgsWithPlugins.NextProcOpt` | tsduck/src/src/libtsduck/tsArgsWithPlugins.cpp:174-197 | finds the next marker and its type |
| `PluginArguments.SplitIsUnique` | tsduck/src/src/libtsduck/tsArgsWithPlugins.cpp:97-133 | a command line is split in only one way, so that any list of plugins written on it is what is found |
| `Bcd.Decode` | tsduck/src/src/libtsduck/tsBCD.cpp:43-57 | the number that the digits represent, modulo 2^32 |
| `Bcd.DigitsOfByte` | tsduck/src/src/libtsduck/tsBCD.cpp:43-57 | each byte holds two digits, the first one in its upper half |
| `Bcd.Encode` | tsduck/src/src/libtsduck/tsBCD.cpp:64-79 | the digits are those of the value modulo a power of ten, and no other half of a byte changes |
| `Bcd.ReadAfterWrite` | tsduck/src/src/libtsduck/tsBCD.cpp:43-79 | the number represented after encoding is the value modulo a power of ten, without overflow |
| `Bcd.EncodeThenDecode` | tsduck/src/src/libtsduck/tsBCD.cpp:43-79 | decoding after encoding gives the value modulo a power of ten, for any number of digits |
| `Bcd.ToString` | tsduck/src/src/libtsduck/tsBCD.cpp:91-110 | the text of the number, without leading zeros, with a digit before the decimal point and all digits after it |
| `Bcd.TextIsNumber` | tsduck/src/src/libtsduck/tsBCD.cpp:91-110 | the text of the digits, with or without leading zeros, stands for the number |

## Left out

- AvcParser.Parser.ReadBits: when raw bits are enough and payload bits are not, the source reads past the end of the memory area; the model returns `PastEnd` instead and does not move.
- AvcParser.Parser.ExpGolomb: nothing is said of the value of a code with as many leading zeros as the integer type has value bits: the shift is undefined for 31 and 32 bits, and the value is truncated for 8 bits.
- AvcParser.Parser.Ue: the same.
- AvcParser.Parser.Se: the same.
- AvcHrd.HrdParameters.Parse: nothing is said of the values when a code is too long for its field, and where the source reads past the end of the memory area, the object is not valid.
- AvcHrd.HrdParameters.ParseArea: the same.
- AvcVui.VuiParameters.Parse: the same.
- AvcVui.VuiParameters.ParseArea: the same.
- AvcSps.SequenceParameterSet.Parse: the same, with 8 bits for `chroma_format_idc`, 31 bits for signed codes and 32 bits for the other ones.
- AvcSps.SequenceParameterSet.ParseBody: the same.
- CommandLine.EquivalentIff: an occurrence that is the missing value of the option before, or a forced parameter, is not an occurrence of the option. With a value that the option rejects, that an error occurs in both cases follows from `CommandLine.FormsAreEquivalent` for the forms that give the value; nothing is said of the other forms.
- The private data specifier that is attached to each descriptor of a list: it is derived from the descriptors.
- CRC, last section numbers and the flags of sections: inside `Section` and `BinaryTable`.
- The crop units and frame sizes of sequence parameter sets: short formulas on the fields. Other access units than sequence parameter sets.
- Reading a signed integer of 32 bits with `i`: the overflow of the shift is not modelled.
- The literal tables of AES other than the S-box and its inverse, and the returned size, which is always 16.
- The weak memory behaviour of the volatile flags: steps are sequentially consistent, and the insertion of an ECM stream in the map is one step.
- The synchronous mode of the descrambler, service discovery, PMT analysis and ciphering: what an ECM deciphers to is arbitrary, and setting a control word records it.
- Fairness between threads: that an accepted ECM is picked up while the packet thread goes on needs a scheduler.
- Predefined options, the configuration file and redirections of arguments; the validation of values is a given function of the option and the text.
- The analysis of the arguments of the command itself is a given function for command lines with plugins; default plugins are given.
- XML, display, help texts, single descriptors, audio attributes, demultiplexers and everything that does input or output.

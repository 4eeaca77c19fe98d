# A verified model of libcacard

libcacard is a software smart card. Command APDUs arrive as bytes, are decoded and routed through applets that keep
state, and leave as responses that may be fetched in several pieces; a client program connects the card to a host
over a socket. This project models that behaviour in Dafny and proves what it promises.

`dafny verify dfyconfig.toml` checks everything.

## How it is organised

* `SimpleTlv` says what the record format of section 8.4 of GSC-IS 2.1 (NISTIR 6887) means; `SimpleTlvCodec` holds the
  code that measures, writes in place and parses it. `CacFile` builds the two container files from it.
* `Apdus` decodes commands (section 5.3.2 of ISO/IEC 7816-4:1995).
* `Acr`, `AcrCodec`, `AcaTables`, `AcaExtended` and `AcaCodec` are the access control tables of the ACA applet (section
  5.3.3.5 of GSC-IS 2.1): meaning, bounded writers and look-ups.
* `Card` is the card as a step machine on values, `CardSteps` what every step keeps, `CardRuns` what holds over whole
  runs, `Transfers` what a host gets by GET RESPONSE and READ BUFFER. `VCards` is the mutable card whose methods refine
  the steps.
* `Commands` says from raw bytes what every command is answered, refusals included, `Resets` what channels and resets do
  over whole runs, `Answers` what a host learns from the bytes that come back for selecting, properties, PIN tries,
  signatures and tables.
* `CardInit` is the card the program really makes, `CardContents` what is on it, and `Sessions` puts it together.
* `Framing` and `Deframer` are the message stream, `Client` the way of messages through the card to the
  replies, `HostView` what the host reads out of those, `Handshake` the two threads and the host that register readers,
  `Fates` what becomes of the events, `EventQueue` the queue of reader and card
  events with the threads that wait on it, `ReaderList` the reference-counted reader lists.
* `CertArrays` and `Pkcs1` are the two array algorithms of the NSS back end.

Applets are kept oldest first and a channel refers to its applet by index, where the code links them newest first.
Everything the code asks of NSS, PKCS #11 or the login state is given to each step as an answer (`Card.Env`,
`Pkcs1.Token`), so what is proved holds for any such answers. Masks and shifts are written with `/` and `%`; the
truncations the code makes (one-byte counts, two-byte headers, the one-byte count in 61xx and 6Cxx) are written out.

## What the code does that a reader might not expect

* `a_secure_messaging` is taken with the mask 0xe, which overlaps the channel bits (src/card_7816.c:228-229). Channels 2
  and 3 therefore always look like secure messaging and never get an applet.
* The PTS test compares a masked class with an enumeration value and never fires (src/card_7816.c:789).
* The private state of an applet is shared by all channels; only SELECT resets it, and resetting the card does not
  (src/vcard.c:68-93, 259-269).
* `HeaderIsTrue`: a container file longer than 65535 bytes states a wrong length.
* `OneApplet`: the CCC is F4 in the applet table, 4F in the service table; it is the one service whose AID gets an empty
  answer. The answer has room for one record only (src/cac-aca.c:872), which suffices because applet ids are unique.
* `FirstProviderIsMissing`: the loop over the provider table counts from one and reads slot `i` of an array that starts
  at zero (src/cac-aca.c:984-993). Get ACR with P1=20 leaves provider 1F out and ends with an empty record; P1=60 lists it.
* `CopiesAreNotAids`: provider and service records announce an AID but carry the first bytes of the table entry in memory
  (src/cac-aca.c:354, 992), which begins with the id.
* `DropIsMistaken`: the event thread reads a reader's id before it takes the lock. If the host accepts the reader in
  between, the event is dropped although the comment at src/vscclient.c:247-248 says the reader has been rejected.
* `StuckForever`: an error code other than success and "cannot add more" leaves the pending reader pending. The code is
  compared without converting it from network byte order (src/vscclient.c:507-522), unlike the header fields, so a
  little-endian client gets stuck on "cannot add more" too (`BytesThatDecide`). It is read from the buffer whatever the
  length of the message, so a short one is completed by what earlier messages left (`ErrorIsReadFromTheBuffer`).
* `AnsweredRemoveShiftsIds`: src/vscard_common.h:114-121 says the host also answers ReaderRemove; the client takes any
  successful answer for the pending reader's. `AnswersMeetTheirReader` says exactly when that goes well.
* `LongGetResponse`: the client receives the card's answer into 270 bytes (src/vscclient.c:375), so a GET RESPONSE for more
  than 268 bytes loses its status word.
* `ReaderList.List.Dequeue`: removing the first or the last of several entries leaves a neighbour pointing at it.
* Message headers are always sent with reader id zero (src/vscclient.c:209).

## Model

| member | source | states |
|---|---|---|
| `SimpleTlvCodec.GetLength` | src/simpletlv.c:35-71 | the up-front length is the length of the encoding for every list that can be split, -1 exactly for a compound in a split mode |
| `SimpleTlvCodec.PutTag` | src/simpletlv.c:175-204 | a tag and length are written exactly when tag, length and room allow it, nothing else in the buffer changes, and the cursor moves by what was written |
| `SimpleTlvCodec.EncodeInternal` | src/simpletlv.c:73-144 | the recursive in-place encoder, called with a stale capacity inside compounds, writes exactly the bytes of the recursive meaning, touches nothing else, returns their number and leaves the new pointer at their end; it fails exactly for a split compound, a tag or length out of range, or a non-zero capacity that is too small |
| `SimpleTlvCodec.WriteMembers` | src/simpletlv.c:93-139 | the loop over the members, as far as the first one that does not encode |
| `SimpleTlvCodec.WriteMember` | src/simpletlv.c:93-139 | one record: header, content and what a failure leaves behind |
| `SimpleTlvCodec.EncodeInto` | src/simpletlv.c:146-152 | encoding into a given buffer |
| `SimpleTlvCodec.EncodeNew` | src/simpletlv.c:146-168 | encoding into a buffer of its own, which fits exactly |
| `SimpleTlvCodec.ReadTag` | src/simpletlv.c:209-236 | a header is accepted exactly when it is complete, with one- or three-byte lengths, and the cursor stops behind it |
| `SimpleTlvCodec.ParseBuffer` | src/simpletlv.c:312-344 | the parsing loop computes the parse of the whole buffer, stopping at the first incomplete record |
| `SimpleTlvCodec.Merge` | src/simpletlv.c:243-258 | a merged list encodes to one encoding after the other and is encodable exactly when both are |
| `SimpleTlv.EncodeConcat` | src/simpletlv.c:73-144 | encoding distributes over appending lists, in all three modes |
| `SimpleTlv.EmptyIsEncodable` | src/simpletlv.c:73-144 | a list that encodes to nothing never meets a bad tag |
| `SimpleTlv.ParseEncodeThen` | src/simpletlv.c:312-344 | parsing an encoding followed by anything gives its members and then parses the rest |
| `SimpleTlv.ParseInvertsEncode` | src/simpletlv.c:312-344 | parse inverts encode: every list comes back without its skipped members, a compound as a leaf holding its children's encoding, and all bytes are consumed |
| `SimpleTlv.ParseTruncation` | src/simpletlv.c:312-344 | parsing a truncated buffer gives a prefix of parsing the whole |
| `SimpleTlv.ParseConcat` | src/simpletlv.c:312-344 | parsing a fully consumed buffer followed by another gives both results one after the other |
| `SimpleTlv.ParseIsFlat` | src/simpletlv.c:312-344 | parsing yields leaves only and nothing skipped |
| `SimpleTlv.ReparseIsIdentity` | src/simpletlv.c:312-344 | encoding a parsed list and parsing it again is the identity whenever it can be encoded |
| `SimpleTlv.EncodeInvertsParse` | src/simpletlv.c:312-344 | encoding what was parsed gives the bytes back if and only if every record was in its shortest form with a proper tag and length |
| `SimpleTlv.DecodeShapeInvertsEncode` | src/simpletlv.c:73-144 | a reader that knows the shape of a nested tree recovers all of it from its encoding |
| `SimpleTlv.EncodeIsInjective` | src/simpletlv.c:73-144 | two trees of the same shape with the same encoding are the same tree |
| `SimpleTlv.EncodeNeedsTheShape` | src/simpletlv.c:73-144 | without the shape they need not be: a compound and a leaf with the same bytes |
| `SimpleTlv.CutInvertsSplit` | src/cac.c:121-168 | cutting the V half by the lengths of the TL half gives the flat list back, the same as parsing the joined form |
| `SimpleTlv.SplitLengths` | src/simpletlv.c:73-168 | the two halves are together as long as the joined form |
| `CacFile.CreateFile` | src/cac.c:121-168 | a file is made exactly for lists that can be split, encoded, and are not empty; it holds the two-byte length and the half asked for |
| `CacFile.HeaderIsTrue` | src/cac.c:121-154 | the length header tells the truth if and only if the content is at most 65535 bytes |
| `CacFile.FilesRoundTrip` | src/cac.c:121-168 | TL file and V file together give every list with true headers back |
| `CacFile.PassthroughFiles` | src/cac.c:719-747 | for any object read from the token: exactly when its TL file and its V file exist |
| `CacFile.ZeroTagLosesTlFile` | src/cac.c:719-747 | a record with tag zero loses the TL file but keeps the V file |
| `Apdus.UpperChannelsNeedSecureMessaging` | src/card_7816.c:214-254 | the mask 0xe overlaps the channel bits: without secure messaging only channels 0 and 1 are reachable |
| `Apdus.VCardApdu.SetClass` | src/card_7816.c:214-254 | for every class byte, digit by digit: channel, secure messaging and type, the channel being the two low bits under the upper digits 0, 8, 9 and A |
| `Apdus.ClassByteMeans` | src/card_7816.c:214-254 | the same for the decoder of raw commands, with the class bytes of each of the four types |
| `Apdus.SameChannel` | src/card_7816.c:219-230 | two basic class bytes address the same channel if and only if they agree modulo 4 |
| `Apdus.VCardApdu.SetLength` | src/card_7816.c:260-336 | accepts exactly the command structures of section 5.3.2 of ISO/IEC 7816-4:1995 and sets body, Lc and Le to what the structure says |
| `Apdus.NewApdu` | src/card_7816.c:343-368 | decoding a raw command, with the status for every kind of refusal |
| `Apdus.ClassifyInvertsTail` | src/card_7816.c:260-336 | every command built for one of the seven cases decodes to that case, body and Le |
| `Apdus.TailInvertsClassify` | src/card_7816.c:260-336 | every accepted command is byte for byte the canonical encoding of what it decodes to |
| `Apdus.CasesAreExclusive` | src/card_7816.c:260-336 | no command belongs to two cases |
| `Apdus.DecodeIsExact` | src/card_7816.c:343-368 | a command is decoded if and only if it has a header, an admissible class and one of the seven structures |
| `Apdus.DecodeBounds` | src/card_7816.c:343-368 | the body lies inside the data and Le is at most 65536 |
| `Apdus.DecodeCommand` | src/card_7816.c:343-368 | decoding inverts the canonical encoder for every header, body and Le |
| `AcrCodec.WriteIns` | src/cac-aca.c:721-746 | one instruction within the room left: written as a whole or refused |
| `AcrCodec.WriteObject` | src/cac-aca.c:706-751 | one object: its bytes, or refusal exactly when the room is too small |
| `AcrCodec.AppletSize` | src/cac-aca.c:762-773 | the size pass |
| `AcrCodec.NewAppletEncoding` | src/cac-aca.c:753-800 | the writing pass fills exactly what the size pass computed and never fails |
| `Acr.AppletRoundTrip` | src/cac-aca.c:706-800 | a decoder driven by the configuration bits recovers every object and instruction, up to fields whose bit is not set |
| `AcrCodec.WriteExtendedApplet` | src/cac-aca.c:1264-1288 | one extended entry with its patched length byte, inside the buffer |
| `AcrCodec.NewExtendedTable` | src/cac-aca.c:1244-1298 | the extended encoder never leaves its worst-case buffer and never takes the failure path, although its room counter skips a byte per object |
| `Acr.BoundedFits` | src/cac-aca.c:1251-1256 | the worst-case sizes per object and applet hold for every table within the C array bounds |
| `Acr.ExtendedTableBound` | src/cac-aca.c:1251-1256 | the whole extended table fits num_applets times the worst case |
| `Acr.ExtendedRoundTrip` | src/cac-aca.c:1244-1298 | every length byte is the true length: walking the table by them recovers all applets |
| `Acr.AppletsTableBounded` | src/cac-aca.c:448-704 | the real table has 23 entries within the bounds |
| `AcaExtended.EntryIsFramed` | src/cac-aca.c:1060-1079 | the length byte an ACR entry gets from its number of methods is the true one, and no entry exceeds the worst case |
| `AcaExtended.ExtendedAcrDecodes` | src/cac-aca.c:1049-1088 | the extended ACR table decodes to its entries, no access method being shown as a pair of zeros |
| `AcaExtended.NewExtendedAcr` | src/cac-aca.c:1049-1088 | the encoder stays inside its buffer, so its final assertion holds |
| `AcaExtended.ExtendedServicesDecode` | src/cac-aca.c:1394-1431 | the extended service table gives every applet id and AID back |
| `AcaExtended.NewExtendedServices` | src/cac-aca.c:1394-1431 | the encoder skips the unused PKI entries and stays inside its buffer |
| `AcaCodec.NewAcr` | src/cac-aca.c:165-202 | the ACR table, or the one entry with an ACRID, or nothing; the entries fit the space set aside, one slot when an ACRID is given |
| `AcaCodec.FindAppletId` | src/cac-aca.c:840-851 | the id of the first service entry in use with this AID |
| `AcaCodec.NewAppletAcr` | src/cac-aca.c:853-909 | the applet table, or one applet's entry, or nothing; never more records than the space set aside holds, which is one when an AID is given |
| `AcaCodec.NewObjectAcr` | src/cac-aca.c:802-838 | the first object with the id over all applets in use, encoded into a buffer for the largest object |
| `AcaCodec.NewAmp` | src/cac-aca.c:965-998 | a count and one record for each of the slots 1 to 3 of the provider table, as many as there is space for |
| `AcaCodec.NewServices` | src/cac-aca.c:320-363 | the service table: a count and one record per service in use, as many as slots |
| `AcaTables.WholeTableDecodes` | src/cac-aca.c:853-909 | the host can decode the whole answer: as many entries as announced, each an applet in use with all its rules |
| `AcaTables.OneApplet` | src/cac-aca.c:840-909 | for every AID: no answer exactly when no service in use has it; otherwise at most one record, which decodes to the applet in use with the service's id, and none exactly for the CCC, whose id is 4F in one table and F4 in the other |
| `AcaTables.OneObject` | src/cac-aca.c:802-838 | for every object id: no answer exactly when no applet in use has it; otherwise one record that decodes to the first object with the id |
| `AcaTables.RulesShown` | src/cac-aca.c:165-202 | every access rule in order with its id, type, applet id and length, or exactly the one with the ACRID, or none |
| `AcaTables.ProvidersShown` | src/cac-aca.c:947-998 | the three provider records show the slots 1, 2 and 3 of the table counted from zero: ids 1E and 1D with AIDs of length seven, then id 0 and no AID |
| `AcaTables.FirstProviderIsMissing` | src/cac-aca.c:947-998 | a provider of the table is shown by P1=20 if and only if it is not the first |
| `AcaTables.ExtendedListsAllProviders` | src/cac-aca.c:947-963 | the extended table gives id and AID of every provider, the first included |
| `AcaTables.ServicesShown` | src/cac-aca.c:320-363 | one record per service in use, in order: id, AID tag and the length of the AID |
| `AcaTables.CopiesAreNotAids` | src/cac-aca.c:320-363 | the bytes copied as AID are the start of the table entry, which is the AID only where that is empty |
| `Card.MissingTag` | src/cac.c:186-230 | asking for properties fails if and only if one of the tags is missing |
| `Card.FindTag` | src/cac.c:199-215 | the first property with the tag, if any has it |
| `Card.SelectTags` | src/cac.c:199-230 | the properties found are those asked for, in the order asked |
| `Card.FindApplet` | src/vcard.c:231-246 | of several applets with an AID the one added last is found |
| `CardSteps.DecodedChannel` | src/card_7816.c:782-796 | every decoded command has a valid channel and the PTS test never fires |
| `CardSteps.AppletSound` | src/vcard.c:282-291 | every applet handler answers or passes on untouched, and keeps the card valid |
| `CardSteps.SelectOk` | src/vcard.c:259-269 | selecting keeps the card valid |
| `CardSteps.XfrSound` | src/vreader.c:249-300 | every byte string sent to a valid card is answered with at least a status word and leaves it valid: no assertion fails |
| `CardSteps.PendingIsDropped` | src/card_7816.c:796-801 | what is pending after a command other than GET RESPONSE was created by that command |
| `CardSteps.PendingIsAnnounced` | src/card_7816.c:78-142 | a new pending response is always announced by 61 with its length |
| `CardSteps.AnswerWithinLe` | src/card_7816.c:105-142 | no answer to a decoded command is longer than its Le and a status word, and a refused one is just a status word |
| `CardRuns.EveryCommandIsAnswered` | src/vreader.c:249-300 | after any run of commands and resets every byte string is answered |
| `CardRuns.SignStep` | src/cac.c:517-566 | what one command on any channel does to one applet's sign buffer and which bytes reach the RSA operation |
| `CardRuns.SignBufferIsTheChain` | src/cac.c:464-566 | in every run the sign buffer holds the chained bodies since the last selection or end of an operation |
| `CardRuns.SignedBytesAreTheChain` | src/cac.c:517-566 | in every run the RSA operation gets exactly that chain and the final body, and only on a final command |
| `CardRuns.Run` | src/vcard.c:68-291 | every run keeps the card valid: selected applets are the card's, channels 2 and 3 are empty, a pending response has bytes left and ends where its buffer ends; AIDs, properties and files other than passthrough files never change |
| `Commands.MalformedIsRefused` | src/card_7816.c:260-368 | a byte string that has none of the command structures is answered 6700 and changes nothing, not even what is pending |
| `Commands.CardRefuses` | src/card_7816.c:581-775 | from raw bytes, when no applet takes the command: 6900 for reserved and proprietary classes and unknown instructions, 6882 for secure messaging, 6A81, 6A00 and 6A88 for the wrong SELECT, VERIFY and GET RESPONSE |
| `Commands.InstructionRefused` | src/cac.c:255-458 | from raw bytes: 6D00 for every instruction an applet of this kind does not know, and 6900 or 6985 for UPDATE BUFFER |
| `Commands.PropertiesRefused` | src/cac.c:263-330 | GET PROPERTIES with each wrong P1, P2 or body |
| `Commands.ObjectIsFound` | src/cac.c:332-360 | SELECT with P1=02: 9000 exactly for the object ids of the applet, 6A82 for any other, 6984 for another length |
| `Commands.ReadRefused` | src/cac.c:388-447 | READ BUFFER that names no file or starts behind its end, with the files a passthrough applet has fetched meanwhile |
| `Commands.AcrRefused` | src/cac.c:588-697 | Get ACR with each wrong P1, P2 or length |
| `Commands.SignAnswers` | src/cac.c:517-566 | SIGN/DECRYPT for every P1 and P2: 9000 for a kept piece, 6A86 with the buffer kept for a wrong P2 and lost for a wrong P1, the key used by the final command alone |
| `Commands.PiecesKept` | src/cac.c:517-566 | a row of pieces of any number and sizes is answered 9000 piece by piece, and the buffer holds them all in order |
| `Commands.DataIsGiven` | src/gp.c:66-112 | GET DATA: P1 and P2 name the tag, most significant byte first; a known one gives its data and to the MSFT applet marks the host, an unknown one 6A88 |
| `Commands.WindowsStep` | src/msft.c:40-69 | the Windows mark is set by such a command alone and never taken back |
| `Resets.ChannelsAreApart` | src/vcard.c:259-269 | in every state a command changes what is selected on a channel only if it is an ordinary SELECT by AID whose class addresses that channel |
| `Resets.SelectedElsewhereIsNotSeen` | src/vcard.c:259-291 | what is selected with a class byte of one channel is not seen with a class byte of another |
| `Resets.ResetClears` | src/vcard.c:68-93 | after a reset nothing is selected and nothing pending; sign buffers, files and the Windows mark are kept |
| `Resets.NothingIsSelectedAfterReset` | src/vcard.c:68-93 | in every run, from a reset to the next SELECT on a channel, READ BUFFER, SIGN/DECRYPT and all other instructions for applets get the card's own 6900 there |
| `Resets.NothingIsPendingAfterReset` | src/vcard.c:68-93 | in every run, from a reset to the next SELECT, whatever is sent leaves the card as it is and GET RESPONSE gets 6A88 |
| `Resets.WindowsIsRemembered` | src/msft.c:40-69 | in every run the card takes the host for Windows exactly if some command of it has shown that |
| `Resets.WindowsIsToldThree` | src/card_7816.c:704-722 | such a host is told three tries where their number is not known, any other gets 6A88 |
| `Transfers.GetResponseStep` | src/card_7816.c:733-759 | GET RESPONSE gives the next Le bytes with 61 and the count still to come, or the rest with 9000, and changes nothing else |
| `Transfers.GetResponseProgress` | src/card_7816.c:733-759 | the remaining length decreases if and only if Le is at least one |
| `Transfers.ResponseChaining` | src/card_7816.c:733-759 | every row of GET RESPONSE commands gives the answers section 7.1 of ISO/IEC 7816-4:1995 asks for and leaves the bytes not yet fetched |
| `Transfers.ServedData` | src/card_7816.c:733-759 | the fetched pieces concatenate to the waiting bytes |
| `Transfers.FetchAll` | src/card_7816.c:733-759 | enough of them fetch everything and leave nothing pending |
| `Transfers.ReadStep` | src/cac.c:394-447 | READ BUFFER, short or extended, sends or announces exactly the bytes of the file asked for, or refuses an offset behind its end |
| `Transfers.ChunkIsRead` | src/cac.c:394-447 | a chunk gives its bytes whether it is sent at once or announced and fetched |
| `Transfers.FileIsRead` | src/cac.c:382-458 | any plan of chunks, with any sizes, Le values and command forms, reads the file from its offset as far as the sizes reach, and leaves the card as it was |
| `Transfers.BothAreRead` | src/cac.c:382-458 | both files of the selected applet, one of which may be missing, read in any chunks |
| `Transfers.EndToEnd` | src/cac.c:121-458 | files built from a list, read in any chunks and cut by their lengths, give the list back |
| `Transfers.FirstReadFetches` | src/cac.c:705-754 | a passthrough applet without files fetches them on the first read, at any offset, which then proceeds as if they had been there, whether or not they could be made |
| `Transfers.PassthroughIsRead` | src/cac.c:705-754 | whatever object is behind a passthrough applet, or none, the host gets the two files made from it |
| `Transfers.NoObjectReadsEmpty` | src/cac.c:737-747 | with no object behind it a passthrough applet gives two zero bytes for each file, an empty list |
| `Transfers.PassthroughEndToEnd` | src/cac.c:705-754 | every record of the token's object arrives at the host if and only if both files can be made and are at most 65535 bytes long |
| `Transfers.AskGets` | src/card_7816.c:105-142 | whether a command's data is sent at once or announced and fetched, the host has it and the card is as if it had been sent at once |
| `Answers.SelectArrives` | src/card_7816.c:633-696 | SELECT by AID, whatever was selected: the applet added last with the AID is selected on the command's channel and reset, nothing else changes, and the template that arrives names the AID, or is the card manager's own |
| `Answers.SelectUnknown` | src/card_7816.c:633-696 | an AID the card does not have is refused and deselects the channel |
| `Answers.PropertiesArrive` | src/cac.c:186-250 | P1=02: the host parses exactly the properties it asked for, in that order |
| `Answers.MissingPropertyRefused` | src/cac.c:186-230 | P1=02 is answered 6A88, with nothing else changed, if and only if the applet has no property with one of the tags |
| `Answers.AllPropertiesArrive` | src/cac.c:263-316 | P1=01 and P1=40: the host parses the short list and the whole list |
| `Answers.VerifyReports` | src/card_7816.c:698-731 | VERIFY from the raw bytes: the login's own status with a PIN; without one 9000 exactly when logged in, otherwise 63Cx with the tries left, at most 15, exactly when their number is known |
| `Answers.SignatureArrives` | src/cac.c:517-566 | a final SIGN/DECRYPT delivers the whole result of the RSA operation on the chained bytes, at once or by GET RESPONSE, or its error status, and ends the chain |
| `Answers.PropertiesCorrectLe` | src/cac.c:236-242 | a too large Le is answered by 6C with the right one modulo 256 and changes nothing; with the right one the whole answer comes at once |
| `Answers.WholeListCorrectLe` | src/cac.c:232-250 | the same for P1=01 and P1=40, and 6F00 exactly for an applet with nothing to say |
| `Answers.TableArrives` | src/cac-aca.c:1147-1212 | every table in SimpleTLV format, from the raw Get ACR command: a status if there is none, otherwise the host parses exactly its records behind the applet information |
| `Answers.AppletTableArrives` | src/cac-aca.c:1147-1212 | P1=10: applet information, count, and the decoded rules of every applet in use |
| `Answers.OneAppletArrives` | src/cac-aca.c:840-909 | P1=11 for every AID: refused exactly when no service in use has it, otherwise the decoded rules of its applet, or nothing for the CCC |
| `Answers.OneObjectArrives` | src/cac-aca.c:802-838 | P1=12 for every object id: refused exactly when no applet in use has it, otherwise the decoded rules of the first object with it |
| `Answers.RulesArrive` | src/cac-aca.c:165-202 | P1=00 and P1=01: all access rules in order, or the one with the id, or a refusal |
| `Answers.IdTablesArrive` | src/cac-aca.c:320-363 | P1=20 and P1=21 from the raw command: ids and AID lengths of every service in use, and of the providers without the first and with an empty one at the end |
| `Answers.ExtendedTablesArrive` | src/cac-aca.c:1300-1485 | the extended applet, access rule, provider and service tables arrive and decode completely, the provider table with all three providers |
| `VCards.VCard.constructor` | src/vcard.c:143-156 | a new card is valid and empty |
| `VCards.VCard.AddApplet` | src/vcard.c:210-226 | the applet is added, nothing is selected |
| `VCards.VCard.InitBufferResponse` | src/card_7816.c:78-100 | the response waits whole and is announced |
| `VCards.VCard.ResponseNewBytes` | src/card_7816.c:126-142 | data goes out at once or waits, by Le |
| `VCards.VCard.GetPropertiesResponse` | src/cac.c:186-250 | the two nested searches and the answer for every Le |
| `VCards.VCard.CommonProcess` | src/cac.c:255-377 | the common handler refines the step function |
| `VCards.VCard.CommonReadProcess` | src/cac.c:382-458 | the reading handler refines the step function |
| `VCards.VCard.PkiProcessApdu` | src/cac.c:495-572 | sign buffer, RSA operation and response refine the step function |
| `VCards.VCard.AcaProcessApdu` | src/cac.c:574-703 | the ACA handler refines the step function |
| `VCards.VCard.GetAcrResponse` | src/cac.c:588-697 | each P1 gives its table through the real encoders |
| `VCards.VCard.ExtendedAcrResponse` | src/cac-aca.c:1244-1298 | the extended forms through their encoders |
| `VCards.VCard.PassthroughProcessApdu` | src/cac.c:705-754 | both files are made by the parser and the file builder |
| `VCards.VCard.DataObjectsProcessApdu` | src/gp.c:66-112 | GET DATA is answered, anything else passed on |
| `VCards.VCard.Find` | src/vcard.c:231-246 | the walk over the list finds the applet added last |
| `VCards.VCard.Select` | src/vcard.c:259-269 | the channel's applet changes and the selected applet is reset |
| `VCards.VCard.VmSelectApdu` | src/card_7816.c:633-696 | SELECT by AID with its FCI, the GP answer and the cases not found |
| `VCards.VCard.VmGetResponseApdu` | src/card_7816.c:733-759 | the cursor moves and the response goes when it is empty |
| `VCards.VCard.VmProcessApdu` | src/card_7816.c:581-775 | the card's own handler refines the step function |
| `VCards.VCard.AppletProcessApdu` | src/vcard.c:282-291 | dispatch to the applet selected on the channel |
| `VCards.VCard.ProcessApdu` | src/card_7816.c:782-822 | applet first, then the card |
| `VCards.VCard.Exchange` | src/vreader.c:264-290 | a raw command is decoded and processed and its response is there |
| `VCards.VCard.PowerCycle` | src/vcard.c:68-93 | every channel is empty and nothing pending; applets with their private state and the Windows mark are as before |
| `VCards.VReader.XfrBytes` | src/vreader.c:249-300 | with a card every exchange succeeds, the caller gets as much of the answer as its buffer holds and nothing is written behind it |
| `CardInit.PkiFilesExist` | src/cac.c:934-985 | both certificate files exist, with true headers, if and only if the certificate is shorter than 65535 bytes |
| `CardInit.NewPkiApplet` | src/cac.c:834-1027 | a PKI applet is made through the file builder, or refused |
| `CardInit.CccFilesExist` | src/cac.c:1450-1758 | for any number of certificates the list of the CCC gives both files, with true headers |
| `CardInit.NewCccApplet` | src/cac.c:1450-1788 | the CCC is made through the file builder, with the URLs of exactly the certificates there are, and never fails |
| `CardInit.CardCanBeMade` | src/cac.c:2251-2411 | a card is made if and only if there are at most ten certificates, all shorter than 65535 bytes |
| `CardInit.InitialCardOk` | src/cac.c:2251-2411 | that card is valid |
| `CardInit.InitCard` | src/vcard_emul_type.c:21-48 | the applets are added in this order, or the first failure is returned |
| `CardContents.AidsOfTheCard` | src/cac.c:2251-2411 | the AIDs of all applets, byte for byte, in the order they are added |
| `CardContents.AidIsFound` | src/vcard.c:231-246 | in every state each AID of the card finds its own applet |
| `CardContents.PkiContents` | src/cac.c:834-1027 | a certificate's applet has its own key, its one object and files that hold the certificate |
| `CardContents.OtherContents` | src/cac.c:2251-2411 | object ids and files of every other applet: empty containers, the two passthrough applets, the card manager and MSFT |
| `CardContents.EmptyDescribed` | src/cac.c:1905-2000 | an empty container describes one object for each of its ids and says how many |
| `CardContents.CccListsCertificates` | src/cac.c:1502-1645 | the CCC has the URL of a certificate exactly if there is one |
| `CardContents.ServicesListCertificates` | src/cac-aca.c:320-363 | the service table in use has the AID of a certificate exactly if there is one |
| `Sessions.RealCardAnswers` | src/vreader.c:249-300 | from a card made of certificates, every byte string in every reachable state is answered; channels 2 and 3 never hold an applet and the others only the card's own |
| `Sessions.RealCardSigns` | src/cac.c:495-572 | each certificate's applet keeps its own key and hands it exactly the bytes chained to the applet |
| `Sessions.CertificateIsRead` | src/cac.c:382-458 | a selected certificate applet, read in any chunks, gives exactly its certificate |
| `Sessions.CccIsRead` | src/cac.c:1450-1788 | the selected CCC, read in any chunks, gives its whole list, with the URLs of exactly the certificates there are |
| `Sessions.RealCardDeliversResult` | src/cac.c:517-566 | after any run a final SIGN/DECRYPT delivers to the host what the RSA operation makes of everything chained since the last end |
| `Sessions.RealCardSaysWhatBecame` | src/vcard_emul_nss.c:240-396 | after any run, whatever the token and the block: the host gets the raw result where the raw operation is used, data exactly when the operation succeeds, otherwise a status, 6985 and 6984 for a key not ready and a wrong length |
| `Sessions.ChainIsSigned` | src/cac.c:517-566 | a chain of pieces and a final command: every piece is answered 9000, the key is used once on all of it, and the host gets the whole result or the status |
| `Sessions.RealCardGivesCcc` | src/cac.c:1450-1788 | after any run the CCC is found by its AID byte for byte and gives its list, which has the URLs of exactly the certificates there are |
| `Sessions.RealCardGivesRules` | src/cac.c:574-703 | after any run the ACA is found by its AID byte for byte and gives the decoded rules of every applet in use |
| `Sessions.RealCardObjects` | src/cac.c:332-360 | after any run SELECT finds exactly the object ids of the applet that is selected |
| `Sessions.RealCardDescribesCertificate` | src/cac.c:834-1027 | after any run a certificate's applet describes its object by id and by the sizes of the two files that are read |
| `Sessions.RealCardDeliversSignature` | src/vcard_emul_nss.c:240-396 | when the chained bytes are a block padded by at least eight bytes, every successful answer is the raw RSA operation on it, emulated or not |
| `Sessions.RealCardGivesCertificate` | src/card_7816.c:581-775 | after any run, SELECT by AID and READ BUFFER in any chunks, answered directly or through GET RESPONSE, give a template with the AID and exactly that certificate |
| `Sessions.PkiIsFound` | src/cac.c:2251-2411 | the AID of a certificate's applet finds that applet in every reachable state |
| `Framing.SplitInvertsWire` | src/vscclient.c:191-217 | cutting a stream at its header lengths undoes framing, whatever follows |
| `Framing.WireInvertsSplit` | src/vscclient.c:377-548 | framing undoes cutting: nothing is lost and no complete message is left over |
| `Framing.SplitIsMonotone` | src/vscclient.c:377-548 | more bytes never change the messages already complete |
| `Framing.WireBytes` | src/vscclient.c:191-217 | a message byte by byte: kind, reader id and length, most significant byte first, then the payload |
| `Deframer.Reader.SocketRead` | src/vscclient.c:377-548 | one call with any number of bytes read: buffer, counters, state and dispatch refine the step function |
| `Deframer.DispatchIsTheSplit` | src/vscclient.c:377-548 | however the stream is cut into reads, the dispatched messages are its split, at most one complete message behind, and that one has no payload |
| `Deframer.ChunkingDoesNotMatter` | src/vscclient.c:377-548 | two ways of cutting a stream dispatch the same messages |
| `Deframer.NextCallCatchesUp` | src/vscclient.c:391-419 | a waiting message is dispatched by the next call, which reads nothing |
| `Deframer.CallKeepsAlive` | src/vscclient.c:408-438 | one call ends the connection exactly when it completes a header of a kind other than Init, Error, APDU and Flush, or an Init that does not leave VSCD in the buffer |
| `Deframer.StopsOnlyAtOffence` | src/vscclient.c:377-548 | in every run all dispatched messages are admissible and the client has stopped only at one that is not |
| `Deframer.BufferIsLeftOver` | src/vscclient.c:377-548 | in every run the first four bytes of the payload buffer are what the dispatched messages left there, as far as the next one has not overwritten them |
| `Deframer.Sender.SendMsg` | src/vscclient.c:191-217 | a message is queued whole; its reader id goes out as zero |
| `Deframer.Sender.SocketSend` | src/vscclient.c:159-181 | bytes leave in order, and the watch ends when none are left |
| `Deframer.SentMessagesArrive` | src/vscclient.c:159-217 | the other end always sees a prefix of the messages, and all of them once the queue is empty |
| `Client.Connection.Dispatch` | src/vscclient.c:441-548 | by message kind, on what is queued: for a command one APDU message with the first 270 bytes of the card's answer, or the status without a card, FlushComplete for Flush, ReaderRemove for Init, nothing for Error; only a command touches the card |
| `Client.ReplyIsWhole` | src/vscclient.c:446-494 | the reply holds the whole answer if and only if that is at most 270 bytes, as for every command with an Le of at most 268 |
| `Client.RepliesAreToTheSplit` | src/vscclient.c:377-548 | however the stream is cut into reads, the replies are those to the messages it splits into, in order and with the card handed on, at most the last one's missing, and the card is already where all messages take it |
| `Client.Connection.Serve` | src/vscclient.c:377-548 | reader, card and sender together do so for any row of reads, up to the one that ends the connection |
| `Client.ErrorIsReadFromTheBuffer` | src/vscclient.c:507-522 | for error messages of every length, in every run: the code is the message's first four bytes, completed by what earlier messages left in the buffer, and decides exactly when those are zero or 2 in the client's byte order |
| `Client.EmptyErrors` | src/vscclient.c:507-522 | an error message without a payload says success after empty messages only, and decides nothing when the Init message was the last with a payload |
| `Client.LongGetResponse` | src/vscclient.c:446-494 | a GET RESPONSE that takes more loses its status word and the bytes behind the 270th, which the card has let go of |
| `HostView.AskOverTheWire` | src/vscclient.c:377-548 | whatever a host gets from the card by a command and the GET RESPONSE commands behind it, it gets out of the payloads of the replies, as long as no Le is above 268 |
| `HostView.HostSplitsReplies` | src/vscclient.c:159-217 | the bytes of the replies, behind whatever was sent before, split into exactly those replies |
| `HostView.HostReadsTemplate` | src/vscclient.c:377-548 | from the bytes that come back for a SELECT by AID the host reads a template with that AID |
| `Handshake.StepKeepsInv` | src/vscclient.c:224-531 | every step of either thread, the host or the event source keeps the handshake invariant, a stray answer that settles a reader apart |
| `Handshake.Registration` | src/vscclient.c:224-531 | in every interleaving in which no answer to another message settles a reader: at most one ReaderAdd is unanswered, ids are those answered to each reader's own ReaderAdd, and events are forwarded only for readers given an id |
| `Handshake.AnswersMeetTheirReader` | src/vscclient.c:508-531 | in every run with a host that answers whatever it likes: every answer that settles a reader answers that reader's own ReaderAdd if and only if no deciding answer to another message is received while a reader is pending |
| `Handshake.PoliteHostNeverStrays` | src/vscclient.c:508-531 | a host that answers nothing but ReaderAdds always meets that condition |
| `Handshake.DropIsMistaken` | src/vscclient.c:238-254 | an event is wrongly dropped if and only if the acceptance of its reader came between reading the id and taking the lock |
| `Handshake.AcceptedReaderLosesItsCard` | src/vscclient.c:238-254 | an interleaving in which this happens |
| `Fates.EndingIs` | src/vscclient.c:224-330 | how an event ends: a ReaderAdd, one message about it, or nothing exactly at one of the two tests |
| `Fates.EveryEventIsAccountedFor` | src/vscclient.c:224-330 | in every run the events that arrived are those ended, the one at hand and those queued, in order and once; the host gets one message for each announced or forwarded one; exactly reader insertions are announced |
| `Fates.KnownReaderIsForwarded` | src/vscclient.c:236-328 | an event whose reader has an id when it is taken is forwarded by the thread's next step, whatever happens in between |
| `Fates.InsertedReaderIsAnnounced` | src/vscclient.c:273-293 | a reader inserted while none is pending is announced by the thread's next steps |
| `Fates.WaitBegins` | src/vscclient.c:243-258 | an event of the pending reader waits for the answer to that reader's ReaderAdd |
| `Fates.AwakeGoesOn` | src/vscclient.c:255-262 | once the answer is there, a thread that is awake goes on to the second test |
| `Fates.WaitingEventIsForwardedIffAccepted` | src/vscclient.c:255-269 | an event that waited is forwarded, with the id from the answer, if and only if the host accepted its reader |
| `Handshake.WaitProgress` | src/vscclient.c:255-283 | a sleeping event thread always has an answer on its way, and each step that is due brings it nearer |
| `Handshake.NoPermanentWait` | src/vscclient.c:255-283 | with a host that decides every ReaderAdd no wait is permanent |
| `Handshake.AnswerEndsTheWait` | src/vscclient.c:508-531 | an answer ends the wait if and only if its code is success or cannot-add-more |
| `Handshake.StuckForever` | src/vscclient.c:508-531 | after any other code no reader is ever added again |
| `Handshake.RefusalSticks` | src/vscclient.c:508-531 | every such code brings a new client there with its first reader |
| `Handshake.BytesThatDecide` | src/vscclient.c:507-522 | which four bytes end the wait: all zero, or 2 in the client's own byte order, so that 2 in network order does so only on a big-endian client |
| `Handshake.AnsweredRemoveShiftsIds` | src/vscclient.c:355-364 | if the host also answers the initial ReaderRemove, ids go to the wrong readers |
| `EventQueue.Queue.Enqueue` | src/event.c:53-67 | the event goes to the end, whatever the stale tail was |
| `EventQueue.Queue.Dequeue` | src/event.c:70-80 | the oldest event leaves, unlinked; the tail is not touched |
| `EventQueue.NobodySleepsOnEvents` | src/event.c:53-92 | any number of waiting threads, wakeups without a signal and pollers in any interleaving: events leave in arrival order and no thread sleeps while an event is there that no awake thread is about to take |
| `EventQueue.Fifo` | src/event.c:53-102 | over every sequence of operations events leave in arrival order, exactly once |
| `EventQueue.Drive` | src/event.c:53-102 | the linked queue behaves as that sequence |
| `CertArrays.PutAt` | src/vcard_emul_nss.c:773-786 | shifting the tail and filling the gap |
| `CertArrays.FindPlace` | src/vcard_emul_nss.c:770-772 | the position before the first greater ID |
| `CertArrays.Place` | src/vcard_emul_nss.c:770-787 | one certificate goes to the same position in all four arrays |
| `CertArrays.MirrorCerts` | src/vcard_emul_nss.c:739-790 | whatever the objects, the rows of the four arrays end as the stable sort of the accepted certificates |
| `CertArrays.AcceptedIs` | src/vcard_emul_nss.c:739-770 | every certificate that could be read is kept, and nothing else |
| `CertArrays.InsertAllSorts` | src/vcard_emul_nss.c:739-790 | inserting one after the other sorts, and keeps certificates with equal IDs in the order found |
| `CertArrays.InsertAllKeepsAll` | src/vcard_emul_nss.c:739-790 | nothing is lost or duplicated |
| `CertArrays.StableSortIsUnique` | src/vcard_emul_nss.c:739-790 | there is only one stable sort |
| `Pkcs1.SignedIsExact` | src/vcard_emul_nss.c:308-335 | the scan recognizes exactly the signature blocks and finds exactly what they sign |
| `Pkcs1.StripInvertsRepack` | src/vcard_emul_nss.c:354-383 | stripping a repacked block by section 7.2.2 of RFC 8017 gives the payload back |
| `Pkcs1.ScanSignature` | src/vcard_emul_nss.c:308-327 | the loop over the padding |
| `Pkcs1.Repack` | src/vcard_emul_nss.c:360-383 | the block is filled exactly: header, padding, separator, payload |
| `Pkcs1.RsaOpInPlace` | src/vcard_emul_nss.c:240-396 | for every block, token and remembered ability: the raw result where the raw operation is used, else the signature or the repacked data, else the status of each refusal with the block untouched; and on exactly which blocks it succeeds |
| `Pkcs1.RsaOutcome` | src/vcard_emul_nss.c:240-396 | the same as a statement about the values: what comes out for every block, enciphered ones included, and when it succeeds |
| `Pkcs1.RsaOpIsInPlace` | src/vcard_emul_nss.c:240-396 | a failure changes nothing and no outcome changes the length |
| `Pkcs1.SigningIsEmulated` | src/vcard_emul_nss.c:308-350 | a signature block gives the same result with and without the raw operation if and only if it is padded by at least eight bytes |
| `Pkcs1.SignatureIsTheRawOne` | src/vcard_emul_nss.c:240-396 | for such a block every success, whatever the token offers, is the raw operation's result |
| `Pkcs1.DecipheringIsEmulated` | src/vcard_emul_nss.c:351-389 | an enciphered block strips to the same data with and without the raw operation, and anything else is an error |
| `ReaderList.List.Queue` | src/vreader.c:376-390 | the list with the entry at its end, linked both ways |
| `ReaderList.List.Unlink` | src/vreader.c:403-406 | an entry between two others is taken out properly |
| `ReaderList.List.Dequeue` | src/vreader.c:392-410 | removal is proper if and only if the entry has neighbours on both sides or on neither; otherwise which stale pointer is left |
| `ReaderList.List.Copy` | src/vreader.c:433-452 | the same readers in the same order, each referenced once more per entry |
| `ReaderList.List.Delete` | src/vreader.c:344-355 | every entry gives one reference back |
| `ReaderList.List.ReaderById` | src/vreader.c:465-487 | the reader of the first entry with the id, referenced once more; nobody exactly when no entry has the id or it is the undefined one; no other count moves |
| `ReaderList.FoundIsFirst` | src/vreader.c:465-487 | the same about the search itself |

## Left out

- SimpleTlvCodec.GetLength: totals are unbounded integers; wrap-around of `int` and `size_t` beyond 2^31 is not modelled.
- Allocation failure, freeing, debug output and hex dumps, static response objects.
- `simpletlv_clone` and `simpletlv_free`; lists are values.
- NSS, PKCS #11, login and the RSA arithmetic: answers given to each step. The card model takes the outcome of the RSA
  operation as such an answer; `Pkcs1` models the operation itself, and `Sessions` connects the two.
- CardRuns.Run: one card on its own; several threads using one reader are serialised by its lock in the code and not
  modelled.
- Card types other than VM cards (file system and direct), `vcard_reference` and `vcard_free`.
- Deframer.Reader.SocketRead: any length in a header is taken, as the code does not check it, but what then arrives beyond
  the 270 bytes of the buffer is not modelled; the capabilities of the Init message are not read.
- Client.Connection.Dispatch: the message is for the reader the connection has; an answer for no card carries a status
  in the client's own byte order, given as four bytes; the events an Init or Error message sets off are in `Handshake`.
- VCards.VCard.Select: the private data of an applet is a value inside the card, so sharing it between two cards cannot be
  expressed.
- AcaTables.ServicesShown: the bytes copied from raw struct memory (src/cac-aca.c:191, 354, 992) depend on the compiler's
  layout and are given, except for the leading id; everything around them is computed.
- CardInit.InitCard: the data objects of the GP and MSFT applets are parameters. The CCC's list lies in static memory that
  a second card in the same process would reuse; one card is modelled.
- Pkcs1.RsaOpInPlace: the modulus has at least two bytes, and the token's results have the sizes the code asserts.
- Handshake.Registration: one event thread, as started by the first Init message; READER_REMOVE and card events differ only
  in the message sent.
- ReaderList.List.Dequeue: the global list and its lock.
- The command prompt, PC/SC pass-through (src/capcsc.c), option parsing (`vcard_emul_options`), ATR and serial numbers,
  finding slots and following their events.

# Atmos client: wire formats and signing

A Dafny model of the part of the EMC Atmos C client that turns requests into text and text back
into data: the string a request is signed by, the header codecs for metadata, access control lists
and tags, the growable buffer all of them print into, the checksum object, the write and range
headers, the filter chain, and shareable URLs.

`dafny verify dfyconfig.toml` checks everything with Dafny 4.11 and its default options. Proofs that do
not need the body of a large function hide it, which keeps every proof under about one and a half million resource
units.

## How it is built

- A `char *` that is only read is a `string`. Where the original rewrites a buffer in place
  (`AtmosUtil_normalize_whitespace`, `AtmosUtil_lowercaseheader`, the string buffer, hex output,
  the arrays the parsers fill) the model has an array, and the loops have the original's indices.
- Every loop or class method is proved equal to a small recursive function (`Normalize`,
  `StringToSign`, `MetaText`, `UserEntries`, `AclText`, `Tags`, `StateText`, `Run`, ...). The
  theorems below speak about those functions, and so about the loops.
- What those functions mean is pinned down without naming them: by rules, by readers that are defined
  on their own (a decoder, a hexadecimal reader, header lookups, a server), by the first place where two
  texts differ, and by the names and words of the protocol.
- `CStrings`, `PercentEncoding`, `Ordering` and `Rest` hold what comes from outside: libc, the
  percent-encoding of sections 2.1 and 2.3 of RFC 3986, `qsort` with `strcmp`, and the few
  operations of rest-client-c the client calls.

| file | what it is about |
|---|---|
| `Whitespace` | squeezing the spaces of a header as a rewriting system, and the two-index loop that computes its normal form |
| `Canonical` | the string to sign: what determines it, what it determines |
| `StringBuffer` | appends as concatenation, with the number and size of reallocations |
| `MetadataCodec`, `MetadataRoundTrip`, `SystemMetadata` | metadata headers, both modes; user and system entries |
| `AclCodec`, `TagCodec` | the two lists joined by a comma and a space |
| `Checksum`, `WriteRequest`, `Ranges`, `AppendProtocol` | streaming checksums, the write filter, Range lines and what a reader makes of them, and runs of create and append |
| `FilterChain`, `WriteLines`, `WriteLookups`, `WriteChain`, `ShareableUrl` | what is signed and what is sent, and what a server makes of it |
| `UserMetaNodes` | the two passes over user metadata in a listing |

## Where the code does something unexpected

Each of these is modelled as the code has it, and the theorem named says exactly what follows.

- The comma in a metadata header depends on the index of the entry, not on what was written. When
  the first entry is rejected the header starts with a comma and parses to an additional empty
  entry (`PlainRoundTripExact`).
- `curl_easy_unescape` takes a length of 0 for "up to the end". In percent-encoded mode an empty
  tag in front of another one comes back as the whole rest of the list (`EmptyTagBeforeRest`); the
  list survives if and only if no tag is empty (`Utf8TagsRoundTripIff`).
- The string to sign can be read back if and only if no field holds a newline (`StringToSignSplits`);
  a newline inside one field can stand for the end of another (`NewlineCollision`).
- A request object that is executed a second time still carries the signature of the first time, and
  the second signature covers it. A server that takes signatures off does not rebuild the string that
  was signed again, nor, unless newlines or a Content-Range without a Range are in play, the one signed
  first (`ReexecutedRequestIsRejected`); it rebuilds the right one if and only if the request handed in
  carries no signature (`ExecutedRequestIsAccepted`).
- The same second execution finds the request stamped, so it neither absorbs the body nor puts the file
  back. A body in memory is sent again as stamped; a body that is the rest of a file is not, unless it
  is empty: the first sending has read it, and what follows it is sent under the old stamp
  (`SendTwice`).
- When a file cannot be put back or no digest comes out, the write filter gives up after it absorbed
  the body. A second try absorbs more, and the checksum object is no longer that of the object
  (`Retry`).
- Appending nothing to an empty object asks for the range `Bytes=0-`, with an open end, because the
  end of the range is -1 (`ClosedRangeIff`). A server that writes an empty body there does no harm, so
  the replay of a run is right all the same (`RunBuildsStampedObject`).
- A shareable URL whose path holds a question mark of its own does not describe what was signed
  (`SelfDescribingIff`).
- `AtmosChecksum_verify_response` negates the mode before it compares it. With the two declared
  modes that is the intended test, as the contract of `VerifyResponse` says of each of them.
- User metadata names are copied with the size limit of values, 1024, into arrays of 255. Of lists
  that would come back, exactly those with shorter names stay within the array (`NameLimit` in plain
  mode, `Utf8NameLimit` in percent-encoded mode).

## Model

| member | source | states |
|---|---|---|
| Whitespace.NormalizeWhitespace | lib/atmos_util.c:104-134 | the in-place loop leaves the normal form of the header, ended by a NUL, and writes nothing behind that NUL |
| Whitespace.LowercaseHeader | lib/atmos_util.c:136-140 | the name before the first colon is lower-cased; from the colon on not a byte changes |
| Whitespace.Lowercase | lib/atmos_util.c:142-146 | every character up to the NUL is lower-cased, what follows is untouched |
| Whitespace.StepInvariant | lib/atmos_util.c:112-127 | deleting one space that does not matter leaves the result of normalisation as it was |
| Whitespace.NormalizeReduces | lib/atmos_util.c:104-134 | the result is reached by deleting such spaces one at a time, and none is left in it |
| Whitespace.NormalFormsAreFixed | lib/atmos_util.c:104-134 | normalising twice is normalising once; the texts it leaves alone are exactly the irreducible ones |
| Whitespace.NormalizeDecidesInterchange | lib/atmos_util.c:104-134 | two headers normalise alike if and only if adding and deleting spaces that do not matter leads from one to the other |
| Whitespace.SpaceRules | lib/atmos_util.c:110-127 | the five places where a space does not count, written out on texts |
| Whitespace.FixedIff | lib/atmos_util.c:110-127 | a header stays as it is if and only if it has a space in none of those places |
| Whitespace.LowerHeaderAt | lib/atmos_util.c:136-140 | a character is lower-cased if and only if no colon stands at or before it |
| CStrings.ToLowerIs | lib/atmos_util.c:136-146 | a capital letter becomes the letter at its place in the other alphabet, everything else stays |
| Whitespace.InkKept | lib/atmos_util.c:104-134 | all characters that are not spaces stay, in their order |
| Whitespace.NormalizeLowerHeader | lib/atmos_client.c:66-70 | lower-casing the name and squeezing spaces commute |
| Ordering.SortedPermutationIsUnique | lib/atmos_util.c:26-28 | under `strcmp` order two sorted permutations of one list are equal, so the result does not depend on how `qsort` works |
| Ordering.SortOfPermutation | lib/atmos_client.c:71-72 | two lists sort to the same lines if and only if they are permutations of each other |
| Ordering.LeqIsFirstDifference | lib/atmos_util.c:26-28 | the order of `strcmp`: the text that is smaller at the first difference, or ends there, stands first |
| Ordering.QSort | lib/atmos_client.c:71-72 | the array ends up a permutation of what it was in which no line stands before one that is smaller at the first difference |
| Canonical.SortedHeaders | lib/atmos_client.c:64-72 | the array of copies holds the lower-cased, normalised headers, none before one that is smaller at the first difference |
| Canonical.AppendSignedLines | lib/atmos_client.c:113-127 | the `firstheader` loop appends exactly the `x-emc` lines with a newline between each two |
| Canonical.CanonicalizeRequest | lib/atmos_client.c:55-136 | the buffer is the string to sign of the request: method, three looked-up values, lower-cased URI, signed lines |
| Canonical.StringToSignSplits | lib/atmos_client.c:74-127 | reading the string line by line gives every field back if and only if no looked-up value, signed line or URI holds a newline |
| Canonical.StringToSignLines | lib/atmos_client.c:74-127 | what each line is: method, Content-Type, Range or else Content-Range, Date, the lower-cased URI, and then each `x-emc` header as often as it occurs, in ascending order |
| Canonical.MethodNames | lib/atmos_client.c:15 | the first line for each of the six methods |
| Canonical.NoNewlineAnywhere | lib/atmos_client.c:74-127 | a request without newlines in its URI and headers has none in a field |
| Canonical.StringToSignCharacterised | lib/atmos_client.c:55-136 | requests without newlines in their fields sign alike if and only if they agree on method, Content-Type, range, date, URI up to case, and the multiset of `x-emc` headers up to name case and removable spaces |
| Canonical.NewlineCollision | lib/atmos_client.c:79-97 | for every URI there are two requests that differ in Content-Type and range and sign alike, so the condition on newlines is needed |
| Canonical.EmcHeadersAreCovered | lib/atmos_client.c:113-127 | a line is signed if and only if it starts with `x-emc` and is the signed form of some header |
| Canonical.EmcNamed | lib/atmos_client.c:113-118 | a header whose name begins with `x-emc`, in any case, has a signed form that begins with it too, so it is signed |
| Canonical.StringLength | lib/atmos_client.c:74-127 | the length of the string is that of the fixed fields and, with their newlines, of the signed lines |
| Canonical.FilterThenSort | lib/atmos_client.c:71-118 | dropping other headers before or after sorting gives the same lines |
| Canonical.SameHeaderSameLine | lib/atmos_client.c:66-70 | two headers have the same signed form if and only if they are one header up to name case and removable spaces |
| Canonical.LinesOfPermutation | lib/atmos_client.c:64-72 | reordering headers reorders their signed forms and nothing else |
| Canonical.RearrangedRequestsSignAlike | lib/atmos_client.c:55-136 | requests with the same looked-up values whose headers are permuted, re-cased and re-spaced have the same string to sign; no text is excluded |
| PercentEncoding.DecodeEncode | lib/atmos_util.c:582-598 | decoding undoes encoding on every byte string |
| PercentEncoding.EncodeInjective | lib/atmos_util.c:372-381 | two byte strings are encoded alike if and only if they are equal |
| PercentEncoding.EncodedAlphabet | lib/atmos_util.c:372-381 | encoded text holds unreserved characters and percent signs only, and is empty for the empty text only |
| PercentEncoding.UnreservedIs | lib/atmos_util.c:372-381 | letters, digits and `-._~` are the unreserved characters of section 2.3 of RFC 3986 |
| PercentEncoding.EncodeCharIs | lib/atmos_util.c:372-381 | any other byte is a percent sign and two upper-case hexadecimal digits, the high half first |
| PercentEncoding.HexValueIs | lib/atmos_util.c:582-598 | a decoder takes digits of either case |
| Rest.HasNameIff | lib/atmos_client.c:80-103 | a line answers a name if and only if the text before its colon is that name in any case |
| Rest.HeaderValueIsFirst | lib/atmos_client.c:80-103 | the first such line answers, without the spaces behind the colon |
| StringBuffer.CBuffer.Append | lib/atmos_util.c:30-55 | the buffer holds the old text followed by the new one; at most one reallocation per 256 bytes and one more; capacity between length + 1 and twice the length + 256 |
| StringBuffer.CBuffer.AppendUtf8 | lib/atmos_util.c:57-93 | the same with the new text percent-encoded |
| StringBuffer.AppendAll | lib/atmos_util.c:30-55 | any run of appends on a fresh buffer gives the concatenation; reallocations and capacity are bounded by its length alone |
| MetadataCodec.IsSystemMetaName | lib/atmos_util.c:545-553 | true exactly for the thirteen names of the table |
| MetadataCodec.MetaCharCheck | lib/atmos_util.c:517-543 | true if and only if some character is a comma, an equals sign, a control character or above 127 |
| MetadataCodec.SetMetadataHeader | lib/atmos_util.c:328-398 | adds one header with the printed list, or none for an empty list |
| MetadataCodec.ParseMetaHeaderEntry | lib/atmos_util.c:555-580 | splits at the first equals sign and drops spaces in front of both halves |
| MetadataCodec.ParseMetaHeaderString | lib/atmos_util.c:600-651 | stores the entries of the value that are not system entries behind the ones already there, in order, and touches no other slot |
| MetadataRoundTrip.ParseUserMetaHeaders | lib/atmos_util.c:653-677 | fills both lists, each from its own header, in the mode the utf8 header names |
| MetadataRoundTrip.PrintedParts | lib/atmos_util.c:348-390 | a printed list splits into its accepted entries, with an empty part in front if and only if the first entry was rejected |
| MetadataRoundTrip.PrintedText | lib/atmos_util.c:348-390 | a list without rejected entries is printed as `name=value`, both halves encoded in utf8 mode, with commas between |
| MetadataRoundTrip.RejectedIff | lib/atmos_util.c:517-543 | plain mode rejects exactly the entries with a comma, an equals sign, a control character or a byte above 127 |
| MetadataRoundTrip.PlainTextIsPrintable | lib/atmos_util.c:348-390 | no plain header text holds a control character or a byte above 127, whatever the list holds |
| MetadataRoundTrip.EncodedSystemName | lib/atmos_util.c:545-553 | an encoded name is a system name if and only if the name itself is |
| MetadataRoundTrip.Utf8RoundTrip | lib/atmos_util.c:328-398 | percent-encoded metadata parses back to all entries without a system name, unchanged and in order, for any bytes within the sizes |
| MetadataRoundTrip.Utf8RoundTripIff | lib/atmos_util.c:600-651 | a percent-encoded list comes back, but for system names, and within the parser's arrays if and only if every name has less than 255 bytes, every kept value less than 1024 and every skipped one fits the local buffer encoded |
| MetadataRoundTrip.Utf8NameLimit | lib/atmos_util.c:636-639 | of encoded lists that pass the local buffers exactly those with names shorter than 255 bytes fit the arrays names are copied to |
| MetadataRoundTrip.HeadersKeepLists | lib/atmos_util.c:653-677 | in either mode, through the header lines of a request and the lookups of a response, each list gives back what its own text gives back |
| MetadataRoundTrip.Utf8HeadersRoundTrip | lib/atmos_util.c:653-677 | percent-encoded, through the headers of a write request both lists come back, and stay apart |
| MetadataRoundTrip.PlainHeadersRoundTrip | lib/atmos_util.c:653-677 | plain, through the same headers both lists come back exactly as their texts say, for any metadata |
| MetadataRoundTrip.UserOnlyLookup | lib/atmos_util.c:873-882 | first-match lookup answers the same before and after the round trip, except that system names are not found |
| MetadataRoundTrip.LookupIsFirst | lib/atmos_util.c:873-882 | the first entry with the name answers, and nothing if there is none |
| MetadataRoundTrip.GetMetadataValue | lib/atmos_util.c:873-882 | returns the value of the first entry with the name, or nothing |
| MetadataRoundTrip.PlainRoundTripExact | lib/atmos_util.c:348-390 | plain metadata parses back to the accepted entries, with leading spaces lost and system names skipped, behind one empty entry when the first was rejected |
| MetadataRoundTrip.PlainRoundTripIff | lib/atmos_util.c:348-390 | a plain list comes back unchanged and within the parser's arrays if and only if every entry passes the character check, starts with no space, has no system name, a name of less than 255 and a value of less than 1024 bytes |
| MetadataRoundTrip.NameLimit | lib/atmos_util.c:636-639 | of lists that come back, exactly those whose names are shorter than 255 bytes fit the arrays names are copied to; the copy itself allows 1023 |
| MetadataRoundTrip.PrintedHeaderFits | lib/atmos_util.c:600-635 | whatever is printed from entries of the documented sizes fits the parser's local buffers, in both modes |
| SystemMetadata.AtmosSystemMetadata.SetEntry | lib/atmos_util.c:711-746 | field by field: each takes the value, cut to its size, if and only if the entry has its name; an unknown type is ignored |
| SystemMetadata.SlotNames | lib/atmos_common.c:15-20 | each of the first seven names selects its own field, and no other name does |
| SystemMetadata.LaterSlotNames | lib/atmos_common.c:15-20 | so does each of the other six |
| SystemMetadata.AtmosSystemMetadata.ParseSystemMetaHeader | lib/atmos_util.c:748-804 | every field is the fold of the header's parts over its old value |
| SystemMetadata.TableMatchesChain | lib/atmos_common.c:15-20 | the name table and the chain of comparisons accept the same names |
| SystemMetadata.PartsArePartitioned | lib/atmos_util.c:600-651 | each part of the header goes to exactly one of the two parsers |
| SystemMetadata.UserParserReadsUserParts | lib/atmos_util.c:636-644 | the user list has one entry for each user part, in order, and nothing else |
| SystemMetadata.SystemParserReadsSystemParts | lib/atmos_util.c:748-804 | the record depends on the system parts alone |
| SystemMetadata.UnassignedSlotKept | lib/atmos_util.c:711-746 | a field no part assigns keeps its value |
| SystemMetadata.LastAssignmentWins | lib/atmos_util.c:711-804 | of several parts that assign a field the last one decides |
| AclCodec.PermissionInversion | lib/atmos_util.c:400-421 | a word is read as a permission if and only if it is the word printed for it |
| AclCodec.PermissionWords | lib/atmos_util.c:400-421 | the word of each permission |
| AclCodec.SelectedFilters | lib/atmos_util.c:440-478 | users go into one header and the group `other` into the other one, in their order; no other group goes anywhere |
| AclCodec.PrintedLines | lib/atmos_util.c:440-490 | the lines letter by letter: the header's name, and `principal=WORD` with a comma and a space between |
| AclCodec.SetAclHeader | lib/atmos_util.c:423-495 | adds the user header and the group header, each only if it has an entry |
| AclCodec.ParseAcl | lib/atmos_util.c:806-855 | stores one entry for each part behind the ones there; an unknown word keeps the slot's permission |
| AclCodec.ParseAclHeaders | lib/atmos_util.c:857-870 | users first, then groups, behind the entries already there |
| CStrings.SplitSpacedJoin | lib/atmos_util.c:440-478 | a list joined by a comma and a space splits into its entries, all but the first with the space in front |
| AclCodec.AclListRoundTripIff | lib/atmos_util.c:423-495 | one printed list is read back as it was, whatever the slots held, if and only if each principal is free of commas, equals signs and leading spaces and fits |
| AclCodec.PrintedAclFits | lib/atmos_util.c:806-834 | a printed list of such principals fits the parser's buffers |
| AclCodec.AclRoundTripIsStablePartition | lib/atmos_util.c:857-870 | both headers parsed again give all users in order, then the group `other` entries in order |
| AclCodec.GetAclPermission | lib/atmos_util.c:884-896 | the permission of the first entry with the principal and type, or none |
| AclCodec.PermissionIsFirst | lib/atmos_util.c:884-896 | the first entry that names the principal and the type decides; without one there is no permission |
| AclCodec.PermissionOfSelected | lib/atmos_util.c:440-478 | what is printed for one header answers for its principals as the whole list did |
| AclCodec.RoundTripKeepsPermissions | lib/atmos_util.c:884-896 | no lookup of a user or of the group `other` changes; any other group is lost |
| TagCodec.SetTagsHeader | lib/atmos_util.c:898-942 | adds one header with the tags joined by a comma and a space, percent-encoded in utf8 mode, or none for no tags |
| TagCodec.ParseTags | lib/atmos_read.c:1272-1316 | terminates with the tags of the value in an array that grew by steps of 100, never too small and with less than one step to spare |
| TagCodec.TagsAreTrimmedParts | lib/atmos_read.c:1276-1316 | plain tags are the comma-separated parts without leading spaces, an empty last one left out |
| TagCodec.PlainTagsRoundTripIff | lib/atmos_util.c:911-933 | joined plain tags come back if and only if none holds a comma or starts with a space and the last is not empty |
| TagCodec.TagsHeaderComesBack | lib/atmos_util.c:898-942 | the splitter on the value that a lookup of the header finds gives the tags back under exactly the conditions of the two modes; no tags, no header |
| TagCodec.TagsAheadShift | lib/atmos_read.c:1276-1316 | what the splitter finds from a point on does not depend on what was read before |
| TagCodec.EmptyTagBeforeRest | lib/atmos_read.c:1302-1306 | an empty encoded tag in front of others comes back as the decoded rest of the list |
| TagCodec.Utf8TagsRoundTripIff | lib/atmos_util.c:911-933 | encoded tags come back, for any bytes, if and only if none is empty |
| Checksum.AtmosChecksum.Update | lib/atmos_common.c:292-326 | the context and offset are those of all bytes absorbed so far |
| Checksum.AtmosChecksum.UpdateFile | lib/atmos_common.c:328-351 | for any pattern of short reads exactly the next `count` bytes, or as many as there are, are absorbed and passed over |
| Checksum.AtmosChecksum.GetValue | lib/atmos_common.c:395-450 | text that any hexadecimal reader turns into the digest of everything absorbed, without changing the running state; nothing if the library produces no digest |
| Checksum.AtmosChecksum.GetState | lib/atmos_common.c:354-371 | algorithm, length and digest, or nothing without a digest; the buffer is never too small |
| Checksum.AtmosChecksum.VerifyResponse | lib/atmos_common.c:452-494 | in generate mode true if and only if there is a local digest and the response carries it with its algorithm, up to letter case; always true in the other mode |
| Checksum.AnswerAccepted | lib/atmos_common.c:475-489 | an answer built from a digest is accepted if and only if the digests are equal |
| Checksum.ToHexString | lib/atmos_common.c:382-393 | for each byte a digit that reads as its high half and one that reads as its low half, and a NUL behind them |
| Checksum.HexReadsBack | lib/atmos_common.c:373-393 | an independent reader of hexadecimal gives the bytes back |
| Checksum.Algorithms | lib/atmos_common.c:241-272 | the name of each algorithm and the length of its digest |
| Checksum.StateTextSplits | lib/atmos_common.c:354-371 | a state text is algorithm, decimal length and hexadecimal digest, with slashes between |
| Checksum.HexInjective | lib/atmos_common.c:373-393 | two byte strings have the same hex form if and only if they are equal |
| Checksum.StateTextDetermines | lib/atmos_common.c:354-371 | equal state texts mean equal algorithm, length and digest |
| WriteRequest.AtmosWriteObjectRequest.AbsorbBody | lib/atmos_common.c:126-169 | the bytes absorbed are the bytes that will be sent; the file position is restored; a file that cannot tell is not read, one that cannot be put back has been absorbed and stays behind the body |
| WriteRequest.AtmosWriteObjectRequest.StampWs | lib/atmos_common.c:120-190 | on success the header carries the state of all bytes so far; each of the three failures has its code, adds no header, and leaves the checksum and the file as stated |
| WriteRequest.AtmosWriteObjectRequest.StampGenerate | lib/atmos_common.c:190-209 | the algorithm is announced; a body in memory is absorbed now, a file gets the filter that absorbs it while it is sent |
| WriteRequest.AtmosWriteObjectRequest.Transmit | lib/atmos_common.c:73-82 | the transport sends the body as it stands, in pieces of any size, leaves a file behind the last byte, and the installed filter absorbs exactly what is sent |
| WriteRequest.AtmosWriteObjectRequest.SetWriteHeaders | lib/atmos_common.c:84-215 | verdict, lines, bytes absorbed and file position in every mode and outcome; what the lines say to a reader is in `WriteLookups.WrittenCarries` and `WriteChain.RunWriteFilter` |
| WriteRequest.AttemptCodes | lib/atmos_common.c:130-183 | which failure has which code |
| WriteLookups.PlainValue | lib/atmos_common.c:90-117 | under each name of the protocol a lookup finds the lines of its own kind and no others: regular metadata, listable metadata, mode, users, groups |
| WriteLookups.WrittenCarries | lib/atmos_common.c:90-117 | on a request that had no such lines, readers of `x-emc-meta` and `x-emc-listable-meta` get back what the two lists' texts give, `x-emc-utf8` tells the mode, and clean access control lists are found under their two names, whatever lines follow |
| WriteLookups.CarriedAcl | lib/atmos_common.c:113-117 | a parser of those two headers gets the users and then the group `other`, in their order |
| WriteLookups.ContentTypeNamed | lib/atmos_common.c:91-96 | without a body the content type is `application/octet-stream` |
| WriteLookups.ContentTypeKept | lib/atmos_common.c:91-96 | with a body the filter names none |
| WriteLookups.GenerateFound | lib/atmos_common.c:190-198 | a lookup of `x-emc-generate-checksum` finds the algorithm |
| WriteRequest.StampNotCut | lib/atmos_common.c:185-188 | for every length an `int64_t` holds the checksum header fits its buffer |
| WriteRequest.AtmosUpdateObjectRequest.SetRange | lib/atmos_update.c:234-239 | both ends of the range are assigned |
| WriteRequest.AtmosUpdateObjectRequest.SetRangeOffsetSize | lib/atmos_update.c:241-246 | the range begins at the offset and is as long as the size |
| WriteRequest.AtmosUpdateObjectRequest.UpdateObject | lib/atmos_update.c:118-143 | adds one range line, closed or open at either end, or none; reading the request's Range header gives back the two ends that were set |
| Ranges.RangeReadBack | lib/atmos_update.c:125-136 | the text of a range determines both ends, whatever integers they are |
| Ranges.RangeNotCut | lib/atmos_update.c:124-136 | a range line with 64-bit ends fits the buffer it is printed to |
| Ranges.RangeAnnounced | lib/atmos_update.c:118-143 | the ends are found in the request whatever lines follow the range line |
| WriteLines.PlainHeadersAnswerNothing | lib/atmos_common.c:90-121 | none of the lines set before the checksum is mistaken for a range, a signature or a checksum |
| WriteLines.PlainLinesGood | lib/atmos_common.c:90-117 | they are C strings with a colon, as signing needs them |
| AppendProtocol.StampFound | lib/atmos_common.c:185-188 | a lookup in the stamped request gives the state text back |
| AppendProtocol.WrittenLookups | lib/atmos_common.c:90-188 | after the write filter a lookup finds the state text, and the range that was there before |
| AppendProtocol.SendWrite | lib/atmos_client.c:181-193 | one request through the whole chain and the transport: its body is absorbed and sent once, the stamp and the range are found by the server and were signed, and the server accepts |
| AppendProtocol.SendTwice | lib/atmos_common.c:120-122 | a second execution absorbs nothing more and keeps the stamp; it sends the stamped bytes if they are in memory, and if they were the rest of a file only when there are none |
| AppendProtocol.SendAppend | lib/atmos_client.c:822-835 | an append announces its range, and is delivered like any write, with the state of everything up to and including its body |
| AppendProtocol.PlanIsBodies | lib/atmos_common.c:126-163 | for every list of requests, whatever files they share, what each will send is the piece of its file behind those taken by the requests before it |
| AppendProtocol.CreateThenAppend | lib/atmos_common.h:211-216 | over a create and any number of appends with one checksum object, bodies in memory or pieces of shared files, request k sends its planned body, is signed, accepted and stamped with algorithm, total length and digest of everything sent so far; the create announces no range and each append the bytes behind the running total |
| AppendProtocol.PiecesAreConsecutive | tests/test_atmos.c:3017-3034 | the planned bodies of requests that share one file are consecutive pieces of it |
| AppendProtocol.ChunkedUpload | tests/test_atmos.c:3017-3034 | a create and appends from one file handle: the server ends up with the file from where the handle stood, and the last stamp is that of all of it |
| AppendProtocol.RangesTile | lib/atmos_update.c:241-246 | for every byte of the object there is exactly one request of the run whose Range header, as read, covers it |
| AppendProtocol.RunBuildsStampedObject | lib/atmos_common.h:211-216 | a server that reads the Range headers and writes the bodies it receives never meets a gap or a wrong length and always holds the object the stamp speaks about |
| AppendProtocol.ClosedRangeIff | lib/atmos_update.c:118-143 | an append names both ends of its range if and only if offset and size are not both 0; otherwise the line is `Bytes=0-` |
| FilterChain.AddDefaultFilters | lib/atmos_client.c:18-29 | the default filters run in the order error parsing, date, uid, content headers, signature, transport, in front of what was there |
| FilterChain.BuildChain | lib/atmos_client.c:163-178 | operation filters run before all default ones, the last added first |
| FilterChain.Execute | lib/atmos.c:22-69 | what the filters do to the shared request, call by call, is the run of the chain; after a request was sent it is still the one that was sent |
| FilterChain.SignedThenSent | lib/atmos_private.h:74-84 | for every chain of operations: nothing is signed or sent if one returns early; otherwise the request is signed once, directly before it is sent, and sent as signed plus the signature |
| FilterChain.RunDefaults | lib/atmos_client.c:18-29 | date, uid and content lines are all in place when the request is signed |
| FilterChain.DefaultValues | lib/atmos.c:22-53 | in the request signed and in the one sent a lookup of `x-emc-uid` finds the client's uid and one of `Date` the date, which is the one in the signed string; the content lines are in it, too |
| FilterChain.LastAddedFirst | lib/atmos_private.h:74-84 | of the operations' filters the one added last runs first |
| FilterChain.StrippedSignsAlikeIff | lib/atmos.c:55-69 | a request without its signature lines signs as it does with them if and only if there are none |
| FilterChain.ServerAcceptsWhatIsSent | lib/atmos_client.c:32-53 | a server that checks the signature just made, on headers in any order, case or spacing, rebuilds the string signed and accepts if and only if the request was signed without a signature of its own |
| FilterChain.SentIsAccepted | lib/atmos.c:55-69 | the same for a request that arrives as it was sent; a lookup finds the first signature |
| FilterChain.ExecutedRequestIsAccepted | lib/atmos_client.c:18-53 | from the request handed in, through every chain of operations that add lines, to the server: the signed string is rebuilt if and only if that request carries no signature, and then it is accepted |
| FilterChain.ReexecutedRequestIsRejected | lib/atmos.c:55-69 | a request executed a second time: the server does not rebuild the string signed now; if the range cannot change or no field holds a newline it does not rebuild the one signed first either, and rejects unless the keyed hash confuses the two |
| WriteChain.RunWriteFilter | lib/atmos_common.c:84-215 | the write filter hands on the request with its lines added, all of them proper headers, the checksum last, and readers find the caller's lists in it; or gives up as its verdict says |
| WriteChain.ExecuteWrite | lib/atmos_client.c:181-193 | where the write filter gives up nothing is signed or sent; otherwise the request is signed with all its lines, the checksum among the signed ones, sent as signed plus the signature, and followed by its body; the server rebuilds the signed string if and only if the request was handed in without a signature, and then accepts; readers of what is signed and of what is sent find the caller's lists |
| WriteChain.ExecuteAndVerify | lib/atmos_common.c:190-209 | generate mode: the body is absorbed exactly once, and the answer is accepted if and only if it names the digest of what was sent, behind what the object had absorbed before |
| WriteChain.Retry | lib/atmos_common.c:145-183 | after a failed seek or a failed digest a second try absorbs the body again, or the bytes behind it |
| WriteChain.EmcLineIsSigned | lib/atmos_client.c:113-127 | every line with a name that begins with `x-emc` is among the signed lines of each request it is in |
| ShareableUrl.GetShareableUrl | lib/atmos_client.c:1265-1335 | the URL is the origin, the path and the encoded parameters, signed over the text that `HashStringSplits` describes |
| ShareableUrl.HashStringSplits | lib/atmos_client.c:1278-1305 | the signed text line by line: `GET`, the lower-cased path, the uid, a decimal that reads back as the expiry, and the disposition |
| ShareableUrl.HashStringDetermines | lib/atmos_client.c:1278-1305 | equal signed texts mean equal path up to case, uid, expiry and disposition, for paths and uids without newlines |
| ShareableUrl.OriginSplits | lib/atmos_client.c:1307-1312 | the URL begins with the host and, unless it is -1, the port |
| ShareableUrl.SplitTarget | lib/atmos_client.c:1312-1328 | a URL whose path has no question mark splits into the path and its parameters |
| ShareableUrl.ParamsFound | lib/atmos_client.c:1312-1328 | looking up and decoding the parameters gives uid, expiry, signature and disposition back |
| ShareableUrl.SelfDescribingIff | lib/atmos_client.c:1278-1328 | the URL rebuilds exactly the text that was signed if and only if its path has no question mark |
| UserMetaNodes.CountClasses | lib/atmos_read.c:922-944 | the two counts are the numbers of listable and regular entries |
| UserMetaNodes.CountsAddUp | lib/atmos_read.c:922-944 | the counts sum to the number of Metadata elements |
| UserMetaNodes.AtmosObjectMetadata.Fill | lib/atmos_read.c:958-984 | the second pass fills each array completely with the entries of its class, each taken from its own node, in document order |
| UserMetaNodes.ClassTakenFrom | lib/atmos_read.c:958-984 | each entry of a class has the name and the value of its own node, in document order, and each Metadata node of the class has an entry |
| UserMetaNodes.AtmosObjectMetadata.ParseUsermeta | lib/atmos_read.c:913-985 | each array has a slot for every entry of its class and no other; a class without entries leaves its array alone |

## Left out

- Transport: libcurl, sockets, proxies, and the `_simple`, `_ns` and `_keypool` wrappers that only format a URI and run a chain. In `FilterChain` the transport filter ends the chain.
- The response half of filters: error bodies, create responses, paging, listings, versions, access tokens, object and service information.
- libxml2 and XPath: `UserMetaNodes` starts from a list of nodes with name, value and listable flag, short enough for the fixed arrays, so that `strncpy` copies them whole.
- Hash, HMAC and base64 internals: a hash is a triple of functions with the streaming law and a fixed digest length; signing is a function of the string to sign.
- SystemMetadata.AtmosSystemMetadata.SetEntry: dates and numbers are kept as the text that `strptime`, `strtol` and `strtoll` are given, because the arithmetic is in libc.
- SystemMetadata.AtmosSystemMetadata.ParseSystemMetaHeader: the same; values longer than the parser's local buffers are excluded by `BuffersFit`.
- rest-client-c is not part of this model: a header lookup is the first line whose name matches in either case, without the spaces after the colon; the content headers it adds are a parameter; `qsort` is any sort.
- Allocation failures, logging, and the init and destroy functions.
- Integer widths other than the 64-bit bounds of `StampNotCut` and `RangeNotCut` and the runs that rest on them; counts are unbounded, and an offset plus a size does not overflow.
- FilterChain.ReexecutedRequestIsRejected: says nothing of the string signed first for a request with a newline in a field that carries Content-Range but no Range, where an added Range can make up for an added line; the client itself never sets Content-Range.
- Input over the parsers' local buffers: `HeaderFits`, `BuffersFit` and `AclFits` are preconditions, and `PrintedHeaderFits` and `PrintedAclFits` show that every printed header meets them.
- Enum values outside the declared ones (an unknown permission, principal type, method or checksum mode).
- AppendProtocol.CreateThenAppend: the caller announces as many bytes as its file holds ahead, so that the ranges are those of the bytes sent; a file that is shorter than announced is a failed transfer, which belongs to the transport.
- Transport errors between signing and the last byte of the body.
- `set_tags_header2`, the parent tag header, and the range header of read requests: the same text as members modelled here.
- QSort: does not model the comparisons of libc's algorithm, because only its result matters and that is unique.

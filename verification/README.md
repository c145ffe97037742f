# node_mgr in Dafny

This project is a Dafny model of the node manager of a distributed database cluster (zettadb's `node_mgr`). It states properties of the model and proves them. The node manager sits on every machine of the cluster. It keeps the list of local storage, meta and computer instances alive. It answers JSON jobs sent by the cluster manager, and it runs a small TCP service through which `kl_tool` executes shell commands on the machine.

The model follows the structure of the program:

- **The `kl_tcp` wire protocol.**
  - `Buffers` is the growable read/write buffer.
  - `Bytes` and `Protocol` hold the big-endian serialisers and the `KlCommHead`, command, file and response bodies.
  - `Murmur` is the 32-bit MurmurHash2 checksum.
  - `TcpComm` holds the connection records, the checksum rules and `strlcpy`.
  - `Framing` is message sending and reading.
  - `ServerSession` is one pass of the server's per-connection state machine.
  - `CommandReader` is the thread that streams a command's output back.
  - `PCmd` is the popen replacement and the `/proc/<pid>/stat` parser.
  - `KlTool` and `KlToolReceive` are the command-line client.
- **Request routing.**
  - `MetaInfo` is the FNV-1a hash of job names and the job-type table.
  - `ErrorCode` holds the error numbers and messages.
  - `JsonTree` is a small JSON value type.
  - `RequestDealer` covers request parsing, dispatch, responses and command construction.
  - `NodeDebug` is the debug keyword list.
- **Local instances.**
  - `InstanceRegistry` is the three instance lists, auto-pullup and keepalive.
  - `PathSpace` is path splitting, `du`/`df` parsing and the path-space answer.
- **Jobs and tools.**
  - `Job` covers job.cc's system command, storage and computer control, the library-reinstall loop and node_exporter.
  - `RebuildNode` is the seven-step rebuild job.
  - `Flashback` is kunlun_flashback.
  - `SafeKill` is safe_killmysql and its `/proc` walk.
- **The test clients.**
  - `HttpClient` models the C clients `http_post_para` and `http_post_file`.
  - `HttpLoad` models the Python load scripts `http_get`, `http_get_range` and `http_post_para`.

The model works on values, not objects. A buffer, connection, session or registry is an immutable datatype, and every operation returns the new value.

Everything the program learns from outside becomes an explicit parameter:

- whether an allocation succeeds (`allocOk`);
- the bytes a peer sends (`sent`);
- the outcome of `popen`, `system` or `fork` (`env`, `launches`, `failing`);
- a probe of an instance (`probes`);
- what a file or a `/proc` entry holds.

A property therefore holds for every answer the outside world can give.

Some helpers come from the shared zettalib library and are not part of this model: `StringTokenize`, `trim`, `contains`, `StringReplace`, `GetBasePath` and `ConvertToAbsolutePath`. `CStr` defines each of them by its documented behaviour. Results that depend on them rest on that assumption. `meta_info.h` and `tcp_error.h` are not part of this model either. The constants they would supply are written out where the code uses them.

Some code does not do what it evidently means to do. For those places the model keeps two members:

- an `…AsWritten` member that follows the code;
- a corrected member that carries the intended property.

The "## Findings" table pairs them. The operations that the rest of the model builds on follow the code as written where the finding lies in the system itself. One example is the session's command path, `ServerSession.AuthorizePacket`, which goes through `CmdPacketAsWritten` and `CommandHandleAsWritten`. The corrected members are proved next to them.

## Model

| member | source | states |
|---|---|---|
| ErrorCode.EOffset | src/util_func/error_code.h:15-17 | EOFFSET(n) lies exactly n above EERROR_NUM_START (60000) |
| ErrorCode.RebuildCodes | src/util_func/error_code.h:19-37 | the rebuild codes are 60003..60016 in order, pairwise distinct and different from EOK, EFAIL and the response-protocol code; EFAIL and the request-protocol code are both 60001 |
| ErrorCode.DefaultErrorNum | src/util_func/error_code.h:44-49 | a default-constructed error number is Ok() |
| ErrorCode.EintToStr | src/util_func/error_code.h:50-55 | the text is the decimal form of the number: atoi reads the number back, and it starts with '-' exactly for a negative number |
| ErrorCode.SizeT | src/util_func/error_code.cc:39 | the signed difference compared with the unsigned table size is reduced modulo 2^64: non-negative values stay, negative ones wrap above 2^63 |
| ErrorCode.ErrNumStrAsWritten | src/util_func/error_code.cc:35-43 | get_err_num_str as written indexes outside the table exactly when the number is EERROR_NUM_START - 1 (59999) |
| ErrorCode.ErrNumStr | src/util_func/error_code.cc:12-43 | every number gets a message of the table: "OK" for EOK, entry n for EOFFSET(n) inside the table, the catch-all message otherwise |
| ErrorCode.ErrNumStrAgrees | src/util_func/error_code.cc:35-43 | for every number except 59999 the code as written and the corrected lookup give the same message |
| ErrorCode.BelowFirstCodeReadsOutside | src/util_func/error_code.cc:39-42 | 59999 passes the bound check and reads table[-1]; the corrected lookup gives the catch-all message |
| ErrorCode.CodeMessages | src/util_func/error_code.cc:12-32 | EOFFSET(0)..EOFFSET(14) each get their own message; the two highest rebuild codes (EOFFSET(15), EOFFSET(16)) get the catch-all one |
| NodeDebug.AddKeys | src/node_debug/node_debug.cc:27-31 | "add" keeps the old list as a prefix, ends with exactly the old keys plus the requested ones, and adds no duplicate to a duplicate-free list |
| NodeDebug.EraseAll | src/node_debug/node_debug.cc:34-40 | the erase loop removes every element equal to the keyword and nothing else |
| NodeDebug.DelKeys | src/node_debug/node_debug.cc:32-41 | after "del" a key is stored exactly when it was stored before and is not one of the requested keywords |
| NodeDebug.DelKeysIsUnlisted | src/node_debug/node_debug.cc:32-41 | deleting keyword by keyword equals the reference description: the stored list in order, without the named keys |
| NodeDebug.UnlistedErase | src/node_debug/node_debug.cc:33-40 | erasing one keyword and then filtering the rest equals filtering all of them |
| NodeDebug.UnlistedAppend | src/node_debug/node_debug.cc:34-40 | filtering distributes over concatenation of the list |
| NodeDebug.UnlistedOfNone | src/node_debug/node_debug.cc:33 | a "del" with no keyword leaves the list unchanged |
| NodeDebug.UnlistedNoDup | src/node_debug/node_debug.cc:32-41 | "del" keeps a duplicate-free list duplicate-free and adds no key |
| NodeDebug.NodeDebug | src/node_debug/node_debug.cc:21-45 | the request always answers true; without both "keyword" and "op_type" the list is untouched; "add"/"del" apply the comma-separated keywords; the list stays duplicate-free |
| NodeDebug.AddKeysIdempotent | src/node_debug/node_debug.cc:27-31 | adding the same keywords twice equals adding them once |
| NodeDebug.AddKeysPresent | src/node_debug/node_debug.cc:28-30 | adding keywords that are all stored already changes nothing |
| NodeDebug.NmKeyword | src/node_debug/node_debug.cc:49-55 | _nm_keyword is 1 exactly when some stored key passes strncmp over its own length, else 0 |
| NodeDebug.StrNEqualIsPrefix | src/node_debug/node_debug.cc:51 | for NUL-free strings the strncmp test over the key's length holds exactly when the key is a prefix of the keyword |
| NodeDebug.AddedKeywordFires | src/node_debug/node_debug.cc:49-55 | after "add" of a keyword every query that starts with it makes _nm_keyword answer 1 |
| Murmur.Shr | src/tcp_server/tcp_comm.cc:67 | a right shift never grows a value and a shift by at least one halves it |
| Murmur.MurmurHashLoop | src/tcp_server/tcp_comm.cc:49-98 | the C loop over a moving pointer and a shrinking count computes the MurmurHash2 of the first len mod 2^16 bytes with seed 2773 |
| Murmur.BlocksStep | src/tcp_server/tcp_comm.cc:63-76 | mixing one block and stepping past it continues the block loop |
| Murmur.LoopStep | src/tcp_server/tcp_comm.cc:64 | the block the loop reads from the key is the block of the hashed prefix |
| Murmur.LoopExit | src/tcp_server/tcp_comm.cc:63-97 | when fewer than four bytes remain the loop has consumed every whole block, and the tail and the avalanche finish the hash |
| Murmur.MixStep | src/tcp_server/tcp_comm.cc:64-72 | the loop body's statements mix one block into the running hash |
| Murmur.TailSwitch | src/tcp_server/tcp_comm.cc:80-88 | the fall-through switch folds in the 0 to 3 leftover bytes |
| Murmur.FinalMix | src/tcp_server/tcp_comm.cc:93-95 | the closing shifts and multiplication are the avalanche step |
| Murmur.HashedLengthWraps | src/tcp_server/tcp_comm.cc:49 | as len is an unsigned short, a payload of 2^16 + n bytes is hashed on its first n bytes only |
| Murmur.FullWrapIgnoresContent | src/tcp_server/tcp_comm.cc:49 | any two payloads of exactly 2^16 bytes get the same checksum as the empty key, whatever they hold |
| Murmur.XorShiftZero | src/tcp_server/tcp_comm.cc:93-95 | a step h ^= h >> n with n > 0 sends only zero to zero |
| Murmur.MulMZero | src/tcp_server/tcp_comm.cc:54 | multiplying by the odd mixing constant sends only zero to zero |
| Murmur.FinalizeZero | src/tcp_server/tcp_comm.cc:93-95 | the closing avalanche sends only zero to zero |
| Murmur.OneByteHashNonZero | src/tcp_server/tcp_comm.cc:49-98 | no one-byte key hashes to zero |
| Murmur.OneByteTailNonZero | src/tcp_server/tcp_comm.cc:85-87 | a start value wider than a byte survives the one-byte tail and the avalanche as a non-zero value |
| Murmur.OneByteHash | src/tcp_server/tcp_comm.cc:58-87 | a one-byte key skips the block loop and is mixed by the one-byte case of the switch |
| Bytes.DecodeEncodeU32 | src/tcp_server/tcp_protocol.cc:20-76 | ntohl undoes htonl on every 32-bit value |
| Bytes.EncodeDecodeU32 | src/tcp_server/tcp_protocol.cc:20-76 | htonl undoes ntohl on every four bytes |
| Bytes.DecodeEncodeU16 | src/tcp_server/tcp_protocol.cc:41-97 | ntohs undoes htons on every 16-bit value |
| Bytes.EncodeDecodeU16 | src/tcp_server/tcp_protocol.cc:41-97 | htons undoes ntohs on every two bytes |
| Bytes.AsTextOfAsBytes | src/tcp_server/tcp_comm.cc:478 | a byte string read as characters and back is unchanged |
| Bytes.I32ToU32 | src/tcp_server/tcp_protocol.cc:30-38 | a signed value and its unsigned bit pattern agree modulo 2^32 |
| Bytes.U32ToI32 | src/tcp_server/tcp_protocol.cc:78-86 | the signed reading of a bit pattern agrees with it modulo 2^32 |
| Bytes.U16ToI16 | src/tcp_server/tcp_protocol.cc:99-107 | the signed reading of a 16-bit pattern agrees with it modulo 2^16 |
| Bytes.SignedRoundTrip | src/tcp_server/tcp_protocol.cc:30-86 | a signed 32-bit value survives the trip through its unsigned pattern |
| Bytes.XorBound | src/tcp_server/tcp_comm.cc:667 | XOR of two k-bit values is a k-bit value |
| Bytes.XorComm | src/tcp_server/tcp_comm.cc:667 | XOR is commutative |
| Bytes.XorAssoc | src/tcp_server/tcp_comm.cc:667 | XOR is associative |
| Bytes.XorZero | src/tcp_server/tcp_comm.cc:667 | zero is the identity of XOR |
| Bytes.XorSelf | src/tcp_server/tcp_comm.cc:667 | every value cancels itself |
| Bytes.XorZeroOnlyEqual | src/tcp_server/tcp_comm.cc:667 | only equal values cancel |
| CStr.CString | src/tcp_server/tcp_comm.cc:478 | what a C function sees through c_str() is the text before the first NUL, all of it when there is none |
| CStr.NoNulCString | src/tcp_server/tcp_comm.cc:478 | text without a NUL is its own C string |
| CStr.FindChar | src/instance_info.cc:667 | strchr finds the first occurrence of the character, and nothing exactly when it is absent |
| CStr.FindCharAt | src/instance_info.cc:707 | strchr in a text built around a character finds the one after a character-free prefix, and the text splits there |
| CStr.FindCharFirst | src/instance_info.cc:707 | strchr finds the first of several occurrences |
| CStr.RFindChar | src/util/kl_tool.cc:389-390 | rfind finds the last occurrence, and nothing exactly when it is absent |
| CStr.FindFrom | test/http_post_para.cc:92-113 | the substring search from a start position returns the first match at or after it, and nothing exactly when none exists there |
| CStr.Find | test/http_post_para.cc:92-113 | strstr returns the first position where the pattern occurs, and nothing exactly when it occurs nowhere |
| CStr.FindOfPrefix | test/http_post_para.cc:92-113 | a match inside a prefix is the match in the whole text |
| CStr.DigitRun | src/util/kl_tool.cc:331 | the leading digit run is all digits and is followed by a non-digit or the end |
| CStr.NatToString | src/tcp_server/tcp_comm.cc:518 | the decimal rendering is a non-empty digit string without a leading zero |
| CStr.NatToStringLength | src/tcp_server/tcp_comm.cc:518 | a value below 10^d takes at most d digits |
| CStr.Pow10Of20 | src/tcp_server/tcp_comm.cc:518 | every unsigned long has fewer than 21 digits |
| CStr.IntToString | src/instance_info.cc:142 | the rendering of a signed value starts with '-' exactly when it is negative |
| CStr.DigitsValueOfNatToString | src/util/kl_tool.cc:331 | reading the decimal rendering of a value gives the value back |
| CStr.SkipSpaces | src/util/kl_tool.cc:331 | strtoul and atoi skip a leading run of white space and stop at the first other character |
| CStr.StrToUL | src/util/kl_tool.cc:331 | strtoul returns at most ULONG_MAX; no digit means nothing consumed and 0; otherwise the end pointer sits right after a digit, on a non-digit or the end |
| CStr.StrToULOfDigits | src/util/kl_tool.cc:331 | strtoul reads back a digit string that fits and stops right after it |
| CStr.AtoiOfDigits | src/util/kl_tool.cc:392 | atoi reads back a digit string, whatever non-digit text follows |
| CStr.AtoiOfNegDigits | src/util/kl_tool.cc:392 | atoi reads back a negated digit string |
| CStr.AtoiOfIntToString | src/rebuild_node/rebuild_node.cc:85 | atoi reads back any rendered signed value |
| CStr.Tokenize | src/tcp_server/kl_pcmd.cc:17 | StringTokenize never returns an empty piece |
| CStr.TokenizeJoin | src/util/kunlun_flashback.cc:54-60 | StringTokenize splits a delimiter-joined list of non-empty, delimiter-free pieces back into those pieces |
| CStr.TrimLeft | src/tcp_server/kl_pcmd.cc:24 | the left trim removes exactly the leading run of characters of the set |
| CStr.TrimRight | src/tcp_server/kl_pcmd.cc:24 | the right trim removes exactly the trailing run of characters of the set |
| CStr.Trim | src/tcp_server/kl_pcmd.cc:24 | trim keeps a part of the text that neither starts nor ends with a character of the set, empty exactly when every character is in the set |
| CStr.SplitAtLast | src/rebuild_node/rebuild_node.cc:84-85 | splitting at the last separator gives the parts on either side, the second holding none; with no separator both parts are the whole text, as npos + 1 wraps to 0 |
| CStr.SplitAtLastOfJoin | src/rebuild_node/rebuild_node.cc:84-85 | a host joined to a separator-free port splits back into the two |
| CStr.ReplaceAll | src/request_dealer/request_dealer.cc:224-225 | StringReplace leaves a text without the pattern unchanged |
| Buffers.GrownCapacity | src/tcp_server/buffer.hpp:137-147 | the doubling loop ends at the first capacity c·2^k that reaches the minimum: at least the minimum and the start, and half of it falls short when it grew |
| Buffers.NewBuffer | src/tcp_server/buffer.hpp:45-49 | a new buffer is empty, with 4096 bytes of room when malloc succeeds and none when it fails |
| Buffers.EnsureWritableBytes | src/tcp_server/buffer.hpp:129-171 | succeeds exactly when the room suffices or memory is available; then the room suffices; stored bytes and both indices are kept; growth goes to the doubled capacity (4096 when empty) |
| Buffers.Clear | src/tcp_server/buffer.hpp:197-200 | both indices return to 0 and the storage is untouched |
| Buffers.Write | src/tcp_server/buffer.hpp:211-221 | returns -1 and changes nothing exactly when growth is needed and fails; otherwise appends the bytes to the readable content and advances the write index by their count |
| Buffers.WriteInPlace | src/tcp_server/buffer.hpp:211-221 | a write that fits stores the bytes at the write index without touching the bytes before or after |
| Buffers.Read | src/tcp_server/buffer.hpp:201-210 | returns -1 with nothing changed exactly when fewer bytes are readable; otherwise the oldest n readable bytes, and the rest stays readable |
| Buffers.WriteFrom | src/tcp_server/buffer.hpp:222-238 | moves min(n, readable) bytes from the unit to the end of this buffer and consumes them from the unit; -1 exactly when growth is needed and fails, then nothing changes |
| Buffers.ConsumeFront | src/tcp_server/buffer.hpp:235 | advancing the read index by m splits the readable content at m |
| Buffers.ReadInto | src/tcp_server/buffer.hpp:245-252 | Read into a unit moves a prefix of this buffer's content to the end of the unit and leaves the remainder readable |
| Buffers.SetBytes | src/tcp_server/buffer.hpp:254-267 | rejects a range ending past the write index; otherwise overwrites exactly that range and moves no index |
| Buffers.Copyout | src/tcp_server/buffer.hpp:273-286 | copies the first min(n, readable) readable bytes and moves nothing |
| Buffers.CopyoutTo | src/tcp_server/buffer.hpp:287-300 | -1 exactly when the unit cannot grow; otherwise the unit gains the copied bytes and the count returned is their number, the smaller of n and the readable bytes |
| Buffers.DiscardReadedBytes | src/tcp_server/buffer.hpp:307-323 | the readable content is unchanged and, when the read index was positive, now starts at offset 0 |
| Buffers.Compact | src/tcp_server/buffer.hpp:100-127 | an empty buffer is cleared; with the room taken modulo 2^32, too little room leaves the buffer as it is and returns 0; otherwise the readable content moves to a new block of readable + least bytes, whose size is returned |
| Buffers.Limit | src/tcp_server/buffer.hpp:193-196 | the capacity shrinks to the write index and the content is kept |
| Buffers.SetWriteIndex | src/tcp_server/buffer.hpp:81-83 | only the write index moves |
| Buffers.CStr | src/tcp_server/buffer.hpp:344-354 | c_str writes a NUL at the write index when there is room; the readable content is unchanged and the returned text starts with it |
| Buffers.WriteThenReadFifo | src/tcp_server/buffer.hpp:201-221 | writing bytes and then reading everything readable returns the old content followed by the written bytes, and leaves the buffer empty: it is a FIFO |
| Protocol.InitCommHead | src/tcp_server/tcp_protocol.cc:13-18 | the head carries the 14-byte head length, the given opcode and sequence number, and encryption type 0 |
| Protocol.EncodeBytes | src/tcp_server/tcp_protocol.cc:51-65 | a Buffer field on the wire is a 4-byte length word and the bytes it announces; the length is taken modulo 2^32 |
| Protocol.SerializeU32 | src/tcp_server/tcp_protocol.cc:20-28 | success appends the four big-endian bytes of the value and leaves the read position; failure (only without memory) leaves the archive unchanged and returns 1 |
| Protocol.SerializeI32 | src/tcp_server/tcp_protocol.cc:30-38 | as SerializeU32, on the two's-complement bit pattern of the signed value |
| Protocol.SerializeU16 | src/tcp_server/tcp_protocol.cc:41-49 | success appends the two big-endian bytes; failure leaves the archive unchanged |
| Protocol.SerializeBuffer | src/tcp_server/tcp_protocol.cc:51-65 | success appends the length word and the content; a failure leaves either nothing or only the length word written; with memory it succeeds |
| Protocol.SerializeBufferFailFast | src/tcp_server/tcp_protocol.cc:51-65 | a failing Buffer field leaves nothing or exactly its length word written |
| Protocol.DeserializeU32 | src/tcp_server/tcp_protocol.cc:68-76 | fails (1) exactly when fewer than 4 bytes are readable, then consuming nothing and keeping the target; otherwise the value's encoding is the first 4 bytes and they are consumed |
| Protocol.DeserializeI32 | src/tcp_server/tcp_protocol.cc:78-86 | as DeserializeU32, reading the same bits as a signed value |
| Protocol.DeserializeU16 | src/tcp_server/tcp_protocol.cc:89-97 | fails exactly when fewer than 2 bytes are readable; otherwise consumes the two bytes that encode the value |
| Protocol.DeserializeI16 | src/tcp_server/tcp_protocol.cc:99-107 | fails exactly when fewer than 2 bytes are readable; otherwise the value is the signed reading of those two bytes |
| Protocol.DeserializeBuffer | src/tcp_server/tcp_protocol.cc:109-123 | without a full length word nothing changes and 1 is returned |
| Protocol.DeserializeBufferSpec | src/tcp_server/tcp_protocol.cc:109-123 | with the announced length available the target gains exactly those bytes and 0 is returned; otherwise it swallows the rest of the archive and 1 is returned |
| Protocol.SerializeCommHead | src/tcp_server/tcp_protocol.cc:126-134 | success appends the 14-byte head image (len, cmdtype, encrypt, innseq); with memory it succeeds |
| Protocol.SerializeCommHeadFailFast | src/tcp_server/tcp_protocol.cc:126-134 | a failing head write leaves only whole leading fields written: a prefix of the image of length 0, 4, 8 or 10 |
| Protocol.DeserializeCommHead | src/tcp_server/tcp_protocol.cc:136-143 | fails exactly when fewer than 14 bytes are readable |
| Protocol.CommHeadRoundTrip | src/tcp_server/tcp_protocol.cc:136-143 | reading the image of a head gives that head back and leaves the following bytes |
| Protocol.CommHeadSerializeRoundTrip | src/tcp_server/tcp_protocol.cc:126-143 | a head written into an empty archive reads back as the same head with nothing left over |
| Protocol.U32FieldRoundTrip | src/tcp_server/tcp_protocol.cc:68-76 | reading the encoding of a uint32 gives it back and leaves the following bytes |
| Protocol.I32FieldRoundTrip | src/tcp_server/tcp_protocol.cc:78-86 | reading the encoding of an int32 gives it back, sign included |
| Protocol.U16FieldRoundTrip | src/tcp_server/tcp_protocol.cc:89-97 | reading the encoding of a uint16 gives it back |
| Protocol.BufferFieldRoundTrip | src/tcp_server/tcp_protocol.cc:109-123 | reading a Buffer field into an empty Buffer gives the content back (content under 2^32 bytes) and leaves the following bytes |
| Protocol.SerializeCmdReqBody | src/tcp_server/tcp_protocol.cc:145-152 | success appends ratelimit, cmd_req, open_type and cmd_mode in that order |
| Protocol.SerializeCmdReqBodyFailFast | src/tcp_server/tcp_protocol.cc:145-152 | a failing command request body leaves a prefix of its image ending at a field or length-word boundary: after nothing, ratelimit, cmd_req's length word, cmd_req, open_type or cmd_mode's length word |
| Protocol.CmdReqHeadFailFast | src/tcp_server/tcp_protocol.cc:147-148 | once ratelimit is written, a failing cmd_req stops after ratelimit or its own length word, and a written one extends the prefix through cmd_req |
| Protocol.CmdReqOpenTypeWritten | src/tcp_server/tcp_protocol.cc:149 | once cmd_req is written, a written open_type extends the prefix through open_type |
| Protocol.CmdReqTailFailFast | src/tcp_server/tcp_protocol.cc:150 | once open_type is written, a failing cmd_mode stops after open_type or after its own length word |
| Protocol.DeserializeCmdReqBody | src/tcp_server/tcp_protocol.cc:154-161 | without a full first field nothing changes and 1 is returned |
| Protocol.CmdReqRoundTrip | src/tcp_server/tcp_protocol.cc:145-161 | a command request body reads back into fresh Buffers as the same request, leaving the following bytes |
| Protocol.SerializeCommReqBody | src/tcp_server/tcp_protocol.cc:164-168 | success appends the one Buffer field |
| Protocol.CommReqRoundTrip | src/tcp_server/tcp_protocol.cc:164-174 | a pack body reads back as the same content |
| Protocol.SerializeFileReqBody | src/tcp_server/tcp_protocol.cc:176-181 | success appends req_type then file_name |
| Protocol.SerializeFileReqBodyFailFast | src/tcp_server/tcp_protocol.cc:176-181 | a failing file request body leaves nothing, req_type, or req_type and file_name's length word written |
| Protocol.FileReqRoundTrip | src/tcp_server/tcp_protocol.cc:176-188 | a file request body reads back as the same request |
| Protocol.SerializeRespCommBody | src/tcp_server/tcp_protocol.cc:191-196 | success appends the signed error code then the error text |
| Protocol.SerializeRespCommBodyFailFast | src/tcp_server/tcp_protocol.cc:191-196 | a failing reply body leaves nothing, the error code, or the error code and errinfo's length word written |
| Protocol.RespRoundTrip | src/tcp_server/tcp_protocol.cc:191-203 | a reply body reads back as the same code and text |
| Protocol.DeserializeCommReqBody | src/tcp_server/tcp_protocol.cc:170-174 | without a full length word nothing changes and 1 is returned |
| Protocol.DeserializeFileReqBody | src/tcp_server/tcp_protocol.cc:183-188 | without a full req_type field nothing changes and 1 is returned |
| Protocol.DeserializeRespCommBody | src/tcp_server/tcp_protocol.cc:198-203 | without a full error-code field nothing changes and 1 is returned |
| TcpComm.FlagsAreDistinctBits | src/tcp_server/tcp_comm.h:44-48 | the five connection-mode flags are pairwise distinct single bits, so testing one never sees another |
| TcpComm.StateOrdinal | src/tcp_server/tcp_comm.h:136-165 | the task states take the enumerator values 0 to 21 in declaration order, KL_INITIALIZE first, KL_CONN_END at 9 and KL_ALL_STATUS last |
| TcpComm.StateOrdinalInjective | src/tcp_server/tcp_comm.h:136-165 | distinct task states have distinct enumerator values |
| TcpComm.NewConnBase | src/tcp_server/tcp_comm.h:169-170 | a new connection keeps its socket and starts with no flags, no timeout, no rate limit and sequence number 0 |
| TcpComm.ConnSeqAddOne | src/tcp_server/tcp_comm.cc:611-613 | the 32-bit sequence number advances by one, wrapping at 2^32, and nothing else changes |
| TcpComm.SeqAddOneRejectsPrevious | src/tcp_server/tcp_comm.cc:611-620 | after an increment the new number is accepted and the previous one is rejected |
| TcpComm.CloseSockfd | src/tcp_server/tcp_comm.cc:505-510 | an open socket is closed and marked -1; a closed one is left alone |
| TcpComm.NewFileStat | src/tcp_server/tcp_comm.h:239 | a new file state has no descriptor and a zero checksum |
| TcpComm.CloseFd | src/tcp_server/tcp_comm.h:281-286 | an open descriptor is closed and marked -1; a closed one is left alone |
| TcpComm.CloseFdIdempotent | src/tcp_server/tcp_comm.h:281-286 | closing twice is closing once, and afterwards the descriptor is never open |
| TcpComm.CStringEndsAt | src/tcp_server/tcp_comm.cc:16-33 | a NUL right after a NUL-free prefix ends the C string there |
| TcpComm.StrLCpy | src/tcp_server/tcp_comm.cc:16-33 | strlcpy returns the length of the source, copies at most siz - 1 characters and terminates them, leaves the rest of the destination alone, and the copy is the whole source exactly when that length is below siz |
| TcpComm.CopyPhase | src/tcp_server/tcp_comm.cc:20-25 | the copy loop either uses up its budget of siz - 1 characters or stops right after copying the source's NUL |
| TcpComm.SkipToNul | src/tcp_server/tcp_comm.cc:26-31 | the second loop leaves the source pointer one past the source's NUL |
| TcpComm.TerminateAt | src/tcp_server/tcp_comm.cc:27-28 | writing the terminator after the copied prefix keeps the prefix and the rest of the destination |
| TcpComm.NulCopied | src/tcp_server/tcp_comm.cc:22-23 | when the NUL itself was copied the destination is already terminated after the copied prefix |
| TcpComm.CostMsec | src/tcp_server/tcp_comm.cc:292-299 | the elapsed time is the true difference when it fits in an int64, 0 when the clock went backwards, and never reaches 2^63 |
| TcpComm.CalcSendChecksum | src/tcp_server/tcp_comm.cc:580-595 | fails exactly when fewer than posIndex bytes are readable, leaving the hash unchanged; otherwise the MurmurHash of the bytes from posIndex (of the readable bytes for posIndex 0) or, without checksums, the byte count after posIndex |
| TcpComm.ChecksumCompareSpec | src/tcp_server/tcp_comm.cc:597-609 | the receiver's comparison holds exactly when enough bytes are present and the received value is the hash or the count computed independently of the sender's routine |
| TcpComm.MsgChecksum | src/tcp_server/tcp_comm.cc:662-670 | in hash mode a running checksum XORs in each hash (its first value being the hash itself); in count mode the value is added modulo 2^64 |
| TcpComm.MsgChecksumData | src/tcp_server/tcp_comm.cc:652-660 | the buffer form folds in the hash of the first len bytes, or in count mode the length itself |
| TcpComm.XorAllAppend | src/tcp_server/tcp_comm.cc:662-670 | the XOR of two runs of hashes is the XOR of their XORs |
| TcpComm.AccumulateIsXorAll | src/tcp_server/tcp_comm.cc:662-670 | in hash mode the zero special case changes nothing: accumulating from 0 is the plain XOR of all hashes |
| TcpComm.AccumulateFrom | src/tcp_server/tcp_comm.cc:662-670 | accumulating from any start is the start XORed with all the hashes |
| TcpComm.XorAllCons | src/tcp_server/tcp_comm.cc:662-670 | the XOR of hashes peels off its first element |
| TcpComm.AccumulateOrderFree | src/tcp_server/tcp_comm.cc:662-670 | in hash mode the final checksum does not depend on the order the chunk hashes arrive in |
| Framing.RawFill | src/tcp_server/tcp_comm.cc:478 | a read through the raw buffer overwrites exactly the first bytes of the storage and moves no index |
| Framing.LengthSeen | src/tcp_server/tcp_comm.cc:478 | the receiver reads the length word through c_str(), which has just written a NUL over its first byte: the length seen is the low three bytes, below 2^24 |
| Framing.SendMsg | src/tcp_server/tcp_comm.cc:443-467 | a buffer of at most the two words is refused with 1; otherwise the frame is the length of everything after the length word (mod 2^32), the checksum, and the rest of the buffer unchanged; 0 exactly when the socket took it all |
| Framing.ReadMsg | src/tcp_server/tcp_comm.cc:469-503 | a timed-out length read gives the timeout code and any other failure the internal-error code; a zero length gives 0; a length of 1..4 or above BUFSIZE + 22 is refused; otherwise the body length, the checksum word decoded and the rest left readable; the checksum is kept on every failure |
| Framing.ReadMsgIgnoresHighByte | src/tcp_server/tcp_comm.cc:477-481 | the top byte of the length word never changes what the receiver does |
| Framing.FrameOf | src/tcp_server/tcp_comm.cc:443-467 | a reference frame is the two words, the 14-byte head and the body |
| Framing.NewArchive | src/tcp_server/tcp_comm.cc:544-554 | a fresh archive has the two 4-byte words skipped and 4096 bytes of capacity |
| Framing.SealAndSend | src/tcp_server/tcp_comm.cc:570-577 | an archive too short to hold the words and a head is refused with 1 |
| Framing.SenderHashIsBodyChecksum | src/tcp_server/tcp_comm.cc:580-595 | the checksum computed from offset 22 of the archive is the body checksum |
| Framing.SendFrame | src/tcp_server/tcp_comm.cc:443-467 | on an archive of the reserved words and a payload, the frame announces 4 + the payload length, carries the hash and the payload; success exactly when all bytes went out |
| Framing.SentFrame | src/tcp_server/tcp_comm.cc:443-467 | under the body checksum the bytes sent are exactly the reference frame of the head and body |
| Framing.SealIsSend | src/tcp_server/tcp_comm.cc:570-577 | sealing with a computed checksum is sending with it |
| Framing.LengthSeenOfSmall | src/tcp_server/tcp_comm.cc:477-481 | any length below 2^24 survives the receiver's loss of the top byte |
| Framing.ReceiveWellFormed | src/tcp_server/tcp_comm.cc:469-503 | a well-formed frame reaches the receiver whole: the announced length, the checksum word and the payload left readable |
| Framing.FrameRoundTrip | src/tcp_server/tcp_comm.cc:443-503 | what a sender frames a receiver with the same checksum mode reads back: the same head, the same body and a checksum comparison that passes |
| Framing.UpToNul | src/tcp_server/tcp_comm.cc:565 | Printf("%s") keeps the bytes before the first NUL of the text |
| Framing.TextBuffer | src/tcp_server/tcp_comm.cc:630-636 | a buffer whose readable content is the given bytes |
| Framing.Sealed | src/tcp_server/tcp_comm.cc:570-577 | an archive of skipped words, head and body seals into the reference frame, 0 exactly when the socket took it all |
| Framing.ReplyCommAnswer | src/tcp_server/tcp_comm.cc:556-578 | with memory available the reply sent is the reference frame of a head carrying the connection's sequence number and the code and text; 0 exactly when it all went out |
| Framing.ReplyArchive | src/tcp_server/tcp_comm.cc:556-569 | the archive holds the skipped words, the head and the reply body; it builds whenever memory is available |
| Framing.SealBuilt | src/tcp_server/tcp_comm.cc:570-577 | a builder failure is returned unchanged; otherwise the reference frame is sent, 0 exactly when it all went out |
| Framing.ChecksumText | src/tcp_server/tcp_comm.cc:519 | the checksum is written as its shortest decimal text |
| Framing.SendChecksumPacket | src/tcp_server/tcp_comm.cc:512-534 | with memory the packet sent is the reference frame of a request carrying the checksum's decimal text |
| Framing.ReqArchive | src/tcp_server/tcp_comm.cc:626-650 | the archive holds the skipped words, the head and the request body; it builds whenever memory is available |
| Framing.SendCommPacket | src/tcp_server/tcp_comm.cc:626-650 | a copy that cannot be made fails with 1 first; with memory the packet is the reference frame of a request carrying the bytes |
| Framing.PackCommHeader | src/tcp_server/tcp_comm.cc:544-554 | the buffer gains the two skipped words and the head built for the command type and the connection's sequence number |
| Framing.PlaceChunk | src/tcp_server/tcp_comm.cc:727-744 | the bytes read land right after the head and the write index follows them; the words and head are kept |
| Framing.SendChunk | src/tcp_server/tcp_server.cc:362-395 | one output chunk is sent as the reference frame of the head and the chunk; the hash returned is its body checksum and the buffer stays packed for the next pass |
| Framing.ChunkHash | src/tcp_server/tcp_comm.cc:580-595 | the placed chunk is checksummed as the body of its frame |
| Framing.ChunkSent | src/tcp_server/tcp_server.cc:381-395 | sending the placed chunk sends its frame and leaves the buffer packed |
| Framing.SendMsgKeepsTail | src/tcp_server/tcp_comm.cc:443-467 | sending rewrites only the first eight bytes and keeps the capacity and the write index |
| Framing.PackedAfterHeader | src/tcp_server/tcp_server.cc:347-355 | packing the head into a fresh receive-sized buffer leaves room for a chunk of BUFSIZE bytes |
| Framing.ReplyRoundTrip | src/tcp_server/tcp_comm.cc:556-578 | a reply reaches a receiver with the same checksum mode with its head, a passing checksum, the code and the text up to its first NUL |
| Framing.RespReadBack | src/tcp_server/tcp_protocol.cc:198-203 | a reply body read from a buffer holding its encoding gives back code and text |
| Framing.ChecksumPacketRoundTrip | src/tcp_server/tcp_comm.cc:512-534 | a checksum packet reaches the receiver as the decimal text of the checksum with a passing checksum comparison |
| Framing.ReqReadBack | src/tcp_server/tcp_protocol.cc:170-174 | a request body read from a buffer holding its encoding gives back its bytes |
| Framing.ChecksumTextShort | src/tcp_server/tcp_comm.cc:519 | an unsigned long needs at most 20 decimal digits |
| Framing.ChunkRoundTrip | src/tcp_server/tcp_server.cc:381-395 | a data chunk reaches the receiver whole, and the hash the receiver folds in is the sender's |
| MetaInfo.Ordinal | src/util_func/meta_info.cc:92-94 | the request-type enumerators run from kRequestTypeUndefined at 0 to kRequestTypeMax at 15 |
| MetaInfo.Hash | src/util_func/meta_info.cc:19-27 | the run-time loop over the characters up to the NUL computes the same FNV-1a value as the compile-time recursion |
| MetaInfo.HashStopsAtNul | src/util_func/meta_info.cc:29-32 | only the bytes before the first NUL enter the hash |
| MetaInfo.Labels | src/util_func/meta_info.cc:41-82 | each case label is the compile-time hash of its name |
| MetaInfo.Switch | src/util_func/meta_info.cc:40-88 | the switch yields the type of the first label equal to the hash, and kRequestTypeMax from the default branch when no label matches |
| MetaInfo.GetReqTypeEnumByHash | src/util_func/meta_info.cc:38-90 | the switch never yields kRequestTypeUndefined; it yields kRequestTypeMax exactly when the hash is no label, and otherwise the type listed with a matching label |
| MetaInfo.GetReqTypeEnumByStr | src/util_func/meta_info.cc:38-90 | a type text maps to kRequestTypeMax exactly when its hash is none of the fourteen labels, and never to kRequestTypeUndefined |
| MetaInfo.RecognizedJobTypeStr | src/util_func/meta_info.cc:96-99 | a job type text is recognised exactly when its hash is one of the labels |
| MetaInfo.RecognizedTypesExcludeEnds | src/util_func/meta_info.cc:92-94 | a type is recognised exactly when it is neither end of the enumeration |
| MetaInfo.RecognizedTypes | src/util_func/meta_info.cc:92-94 | the recognised types are exactly the fourteen the switch can yield |
| MetaInfo.LowOfHash | src/util_func/meta_info.cc:29-32 | the low byte of the hash follows a byte-wide recurrence of its own |
| MetaInfo.LabelsDistinct | src/util_func/meta_info.cc:41-82 | no two case labels collide, so the switch is well formed, as the C++ compiler demands |
| MetaInfo.SwitchFinds | src/util_func/meta_info.cc:40-88 | with distinct labels the label at position k selects the type at position k |
| MetaInfo.NamesMapToTypes | src/util_func/meta_info.cc:38-90 | each of the fourteen names selects its own request type |
| MetaInfo.NamesRecognized | src/util_func/meta_info.cc:96-99 | every listed name is recognised, check_port_idle included |
| MetaInfo.UnlistedRefused | src/util_func/meta_info.cc:96-99 | a text whose hash matches no listed name is refused and maps to kRequestTypeMax |
| MetaInfo.CBytes | src/request_dealer/request_dealer.cc:100 | the bytes c_str() hands over are as many as the string's characters |
| JsonTree.Member | src/request_dealer/request_dealer.cc:83-100 | operator[] gives the member under the key when isMember holds and null otherwise |
| JsonTree.AsString | src/request_dealer/request_dealer.cc:100 | asString gives a string's own text, "" for null, and for an integer a text atoi reads back as the integer |
| JsonTree.AsInt | src/job.cc:835 | asInt gives an integer's value, 0 for null, and 1 exactly for true |
| JsonTree.Elements | src/request_dealer/request_dealer.cc:181 | an array's elements in order; any other value has none |
| JsonTree.ElementStrings | src/request_dealer/request_dealer.cc:181-188 | the asString of each element, one per element, in order |
| KlTool.KlTypeOf | src/util/kl_tool.cc:373-380 | the kl_type word has each of the four switched bits set exactly when its option is non-zero, and never KL_FILE_COVER |
| KlTool.FlagBits | src/util/kl_tool.cc:373-380 | the word built from four one-bit switches tests each flag as its own switch |
| KlTool.Main | src/util/kl_tool.cc:363-392 | help exits with 0; a missing host or command or a requested file transfer exits with -1; otherwise the client starts with the given command and timeouts and the assembled kl_type, never in file mode |
| KlTool.HostSplitRoundTrip | src/util/kl_tool.cc:389-392 | a host written ip:port with a decimal port splits back into both, whatever colons the ip holds |
| KlTool.HostWithoutColon | src/util/kl_tool.cc:389-392 | a host without ':' is used whole as the ip, and atoi of the whole text is the port |
| KlTool.ConnectServer | src/util/kl_tool.cc:97-174 | an empty ip, then a non-positive port, is refused with its own message before any socket; the connection is made exactly when both are valid and the socket works, with sequence 0 and the read timeout set |
| KlTool.ToInt64 | src/util/kl_tool.cc:395 | the uint64 timeout option becomes the signed value with the same 64 bits |
| KlTool.CommandArchive | src/util/kl_tool.cc:301-319 | the archive holds the skipped words, the CMD head and the command body; it builds whenever memory is available |
| KlTool.SendCommandReq | src/util/kl_tool.cc:301-326 | with memory the frame sent is the reference frame of a CMD head under the connection's sequence number and the command body; 0 exactly when the socket took it all |
| KlTool.Launched | src/util/kl_tool.cc:341-405 | the client reaches its event loop only when the options start it, the socket works and memory is available; it then runs with kltype 0, the timeout option, and has sent the command request under sequence 0 |
| KlTool.OptionFlagsNotApplied | src/util/kl_tool.cc:373-396 | whatever the switches say, the running client's connection has the kltype its constructor gives, 0, so it checksums every frame |
| KlTool.NoFlagInZero | src/util/kl_tool.cc:373-396 | the zero word has no flag set |
| KlTool.CommandRoundTrip | src/util/kl_tool.cc:301-326 | the server decodes the command request back to the command text, open type 0 and mode "rw", under a passing checksum |
| KlTool.UpToNulWithoutNul | src/util/kl_tool.cc:308-309 | Printf("%s") copies text without a NUL whole |
| KlTool.CmdReadBack | src/tcp_server/tcp_protocol.cc:154-161 | a command body read back from a buffer holding its encoding gives back its fields |
| KlTool.NotifyExit | src/util/kl_tool.cc:14-21 | ClientNotifyExit with its defaults sends the quit notice and exits with -1 |
| KlTool.TimeoutExit | src/util/kl_tool.cc:184-201 | a timed-out command sends the TIMEOUT notice, then the quit notice, and exits with -1 |
| KlTool.ChecksumTypeOf | src/util/kl_tool.cc:76 | the stdin loop XORs chunk hashes exactly when the connection is not in no-checksum mode |
| KlTool.PackBuffer | src/util/kl_tool.cc:44-53 | the read buffer carries the PACK head after the two words with room for a full chunk |
| KlTool.SendFromAnyPackedBuffer | src/util/kl_tool.cc:56-80 | the outcome of a chunk's send, its hash and its frame do not depend on which packed buffer carried it |
| KlTool.StdinTurn | src/util/kl_tool.cc:55-93 | a turn forwards its chunk exactly when the chunk went out whole inside the budget, folding its hash in; a read failure exits with -1; end of input sends the END notice |
| KlTool.StdinLoop | src/util/kl_tool.cc:55-93 | the stdin loop exits only with -1, and when it finishes normally its last packet is the END notice |
| KlTool.EndOfInput | src/util/kl_tool.cc:61-67 | end of input sends the END notice; the thread returns when it went out whole and exits with -1 otherwise |
| KlTool.ChunkTurn | src/util/kl_tool.cc:69-92 | the chunk's hash is folded in whether or not its send works; a short send exits with -1 without a quit notice; a used-up budget sends TIMEOUT and quit notices and exits with -1 |
| KlTool.ChunkTurnSends | src/util/kl_tool.cc:69-92 | the chunk turn is what sealing the packed read buffer and KlSendMsg lead to |
| KlTool.EndOfInputSends | src/util/kl_tool.cc:61-67 | the END notice frame is the packet head and eight bytes |
| KlTool.StdinThread | src/util/kl_tool.cc:33-95 | a thread that cannot set up its buffer sends a quit notice and exits with -1; the thread never exits with anything else |
| KlTool.Chunks | src/util/kl_tool.cc:58 | the chunks read, one per turn, in order |
| KlTool.PackPackets | src/util/kl_tool.cc:78 | one PACK packet per chunk, in order |
| KlTool.ChunkHashes | src/util/kl_tool.cc:69-75 | the hash each chunk carries, one per chunk |
| KlTool.StdinForwardsAll | src/util/kl_tool.cc:55-93 | chunks all delivered inside the budget are forwarded as PACK packets in order with exactly their hashes folded in, and the thread keeps waiting |
| KlTool.LoopStep | src/util/kl_tool.cc:55-93 | a delivered chunk inside the budget sends one PACK packet and the loop goes on |
| KlTool.StdinEndsAtEof | src/util/kl_tool.cc:55-93 | end of input after delivered chunks sends the END notice after their packets, returns exactly when the notice went out whole, and reads nothing more |
| KlTool.StdinTimesOut | src/util/kl_tool.cc:55-93 | the chunk that uses up the budget still goes out, followed by the TIMEOUT and quit notices, and the client exits with -1 with that chunk's hash folded in |
| KlTool.TimeoutStep | src/util/kl_tool.cc:85-92 | a delivered chunk that uses up the budget ends the loop |
| KlTool.ForwardedCons | src/util/kl_tool.cc:55-93 | packets, hashes and costs of delivered turns split after the first |
| KlTool.EofStep | src/util/kl_tool.cc:61-67 | end of input ends the loop with the END notice |
| KlTool.AccumulateStep | src/tcp_server/tcp_comm.cc:662-670 | folding a run of hashes is folding the first and then the rest |
| KlToolReceive.SockTimeout | src/util/kl_tool.cc:184-203 | once the command is out, a poll timeout stops the client with the TIMEOUT and quit notices exactly when more than the timeout has passed; otherwise it keeps waiting |
| KlToolReceive.ReceivedChecksum | src/util/kl_tool.cc:328-334 | the checksum read from a packet is an unsigned long |
| KlToolReceive.FreshCommReq | src/tcp_server/tcp_protocol.cc:164-174 | a request declared before reading starts with an empty buffer |
| KlToolReceive.FreshCommResp | src/tcp_server/tcp_protocol.cc:191-203 | a response declared before reading starts with an empty text |
| KlToolReceive.HandleSockMsg | src/util/kl_tool.cc:205-267 | a read timeout retries; any other failed read exits with -1 without a quit notice; a bad head, a foreign sequence number or a checksum mismatch quits through ClientNotifyExit; otherwise the opcode decides |
| KlToolReceive.Dispatch | src/util/kl_tool.cc:241-266 | unknown opcodes are ignored; a PACK chunk quits when the command is late and is otherwise written out and folded in; an accepted checksum changes nothing; END ends the client unless it is late |
| KlToolReceive.Landed | src/util/kl_tool.cc:213-214 | the buffer the handler dispatches on is well formed |
| KlToolReceive.Admitted | src/util/kl_tool.cc:205-267 | a frame under the client's sequence number and checksum mode passes every check and is dispatched with exactly its body readable |
| KlToolReceive.ForeignSequenceQuits | src/util/kl_tool.cc:229-233 | a frame under another sequence number makes the client quit, whatever it carries |
| KlToolReceive.PackReceived | src/util/kl_tool.cc:269-287 | an output chunk reaches stdout whole and its hash is folded in, unless the command is already late |
| KlToolReceive.EndReceived | src/util/kl_tool.cc:289-299 | the END reply ends the client with the server's return code, unless the command is already late |
| KlToolReceive.EndDispatched | src/util/kl_tool.cc:254-261 | an END body is dispatched to the client's exit with its code |
| KlToolReceive.ChecksumReceived | src/util/kl_tool.cc:328-339 | the checksum packet is accepted exactly when it carries the client's running checksum, and then changes nothing |
| KlToolReceive.ChecksumDispatched | src/util/kl_tool.cc:242-249 | a checksum body is compared against the running checksum |
| KlToolReceive.ChecksumTextReadBack | src/util/kl_tool.cc:328-334 | the decimal text the server writes reads back as the checksum it sent |
| KlToolReceive.SharedChecksumAcceptedIff | src/util/kl_tool.cc:76 | as written, with one checksum shared by the stdin and socket paths, the server's checksum is accepted exactly when the stdin chunks' hashes XOR to zero |
| KlToolReceive.SharedIsXor | src/tcp_server/tcp_comm.cc:662-670 | in hash mode the server's and the client's values are plain XORs of chunk hashes |
| KlToolReceive.XorCancelsOnlyZero | src/tcp_server/tcp_comm.cc:667 | XORing a value into another leaves it unchanged exactly when the value is zero |
| KlToolReceive.SharedChecksumRejectsOneByte | src/util/kl_tool.cc:76 | one byte typed on stdin and a command with no output: the client quits with -1 on the server's correct checksum |
| KlToolReceive.OneByteChunkHash | src/tcp_server/tcp_comm.cc:49-98 | the hash of a one-byte chunk is never zero |
| KlToolReceive.OutputChecksumAccepted | src/util/kl_tool.cc:328-339 | a client comparing against its own tally of the output accepts the server's checksum whatever was typed on stdin |
| CommandReader.ChunkStep | src/tcp_server/tcp_server.cc:381-395 | one pass's send succeeds exactly when the socket takes the whole PACK frame, and folds in the chunk's body checksum |
| CommandReader.ReadLoop | src/tcp_server/tcp_server.cc:358-396 | the loop ends with 0 or KL_TCP_ERR_CONN_CORRUPT once the connection is marked; a failed send always ends it; a loop that has not ended is normal with no error and no exit status |
| CommandReader.LoopChecksum | src/tcp_server/tcp_server.cc:358-396 | while the connection stays normal the running checksum is the fold of exactly the chunks sent, in order |
| CommandReader.WaitChild | src/tcp_server/tcp_server.cc:407-422 | a child handed to the recycling thread ends the wait, and an error or an abort already recorded is kept |
| CommandReader.ChunkPackets | src/tcp_server/tcp_server.cc:390 | one PACK packet per chunk, in order |
| CommandReader.Reported | src/tcp_server/tcp_server.cc:424-427 | the END reply carries 0 exactly for success or end of output, and otherwise the error itself |
| CommandReader.ClosingSends | src/tcp_server/tcp_server.cc:398-431 | with memory the checksum and END sends succeed exactly when the socket takes their frames whole |
| CommandReader.ChunksThenClosing | src/tcp_server/tcp_server.cc:358-431 | chunks followed by a closing tail are in wire order |
| CommandReader.Finish | src/tcp_server/tcp_server.cc:398-435 | after the loop the chunks sent come first, then only a closing tail: the checksum and, last, END |
| CommandReader.ReadCommandOutput | src/tcp_server/tcp_server.cc:339-436 | the thread puts chunks first and END only last, right after the checksum, and ends once a child it hands over is recycled |
| CommandReader.Delivered | src/tcp_server/tcp_server.cc:362-395 | the polls of chunks whose frames the socket takes whole |
| CommandReader.DeliveredLoop | src/tcp_server/tcp_server.cc:358-396 | delivered chunks are all forwarded and folded into the checksum, and the loop goes on with what follows |
| CommandReader.DeliveredStep | src/tcp_server/tcp_server.cc:381-395 | one delivered chunk is sent and folded in and the loop goes on |
| CommandReader.ChunkPass | src/tcp_server/tcp_server.cc:381-395 | a pass whose chunk the socket takes whole continues the loop with the hash folded in |
| CommandReader.ChecksumIsOutputChecksum | src/tcp_server/tcp_server.cc:398-404 | the checksum packet follows exactly the chunks sent and carries the fold of their hashes, which a client tallying its output holds |
| CommandReader.LoopEndsAfter | src/tcp_server/tcp_server.cc:358-380 | delivered chunks then a pass that ends the loop without sending leave exactly those chunks and their fold |
| CommandReader.QuietExit | src/tcp_server/tcp_server.cc:371-378 | outside daemon mode a quiet poll that finds the child gone ends the loop with its status |
| CommandReader.ClosingAfter | src/tcp_server/tcp_server.cc:398-431 | a normally ended loop sends the checksum and then END with the reported code |
| CommandReader.EofReportsSuccess | src/tcp_server/tcp_server.cc:366-431 | when the command closes its output the chunks, the checksum and an END carrying 0 go out, whatever the child's exit status |
| CommandReader.ExitReportsStatus | src/tcp_server/tcp_server.cc:371-431 | outside daemon mode a child found gone on a quiet poll ends the output, and END carries the status it left |
| CommandReader.AbortStopsOutput | src/tcp_server/tcp_server.cc:358-431 | once the session marks the connection the thread sends nothing more, and a running child goes to the recycling thread |
| CommandReader.SetupFailureReported | src/tcp_server/tcp_server.cc:342-431 | a setup failure still sends a checksum of nothing and then reports KL_TCP_ERR_INTERNAL_ERROR |
| ServerSession.GetFirstChildPid | src/tcp_server/tcp_server.cc:24-34 | the pid waiting longest leaves the queue; an empty queue gives 0 and stays empty |
| ServerSession.AddChildPid | src/tcp_server/tcp_server.cc:36-39 | a pid joins the queue at the back and the rest is unchanged |
| ServerSession.RecycleRound | src/tcp_server/tcp_server.cc:46-58 | a positive pid still running goes back into the queue, an exited or non-positive one is dropped, and no other pid is lost or added |
| ServerSession.QueueIsFifo | src/tcp_server/tcp_server.cc:24-39 | pids added one by one are taken back in the order they were added |
| ServerSession.TakeAllWhole | src/tcp_server/tcp_server.cc:24-34 | taking as many pids as the queue holds gives the queue in order |
| ServerSession.NewSession | src/tcp_server/tcp_server.h:134 | a new session starts in KL_INITIALIZE with no error, no exit request and no reader |
| ServerSession.SessionSends | src/tcp_server/tcp_comm.cc:512-578 | the session's replies succeed exactly when the socket takes their whole frame |
| ServerSession.Replied | src/tcp_server/tcp_server.cc:151 | an END reply is recorded exactly when the socket takes it whole |
| ServerSession.CloseWrite | src/tcp_server/kl_pcmd.cc:352-358 | closing the child's stdin keeps the child and leaves the write side closed |
| ServerSession.ModeText | src/tcp_server/tcp_server.cc:268-270 | the corrected default is a mode OpenCmd accepts, reading and writing; a given mode is used as sent |
| ServerSession.PopenExec | src/tcp_server/tcp_server.cc:283-299 | 0 exactly when OpenCmd opens the command, and then the session enters KL_CMD_INPUT with the reader started on the child's output; otherwise KL_TCP_ERR_INTERNAL_ERROR and nothing else changes but the kept handle |
| ServerSession.CommandHandleWith | src/tcp_server/tcp_server.cc:263-281 | the rate limit comes from the request; open type 0 runs the command text up to its first NUL through popen and succeeds exactly when it opens; any other type runs it through system() and returns its status |
| ServerSession.CommandHandleAsWritten | src/tcp_server/tcp_server.cc:263-281 | as written, a popen request with an empty mode always fails with KL_TCP_ERR_INTERNAL_ERROR |
| ServerSession.CommandHandle | src/tcp_server/tcp_server.cc:263-281 | corrected, a popen request with an empty mode runs whenever the system lets it |
| ServerSession.StackCmdReq | src/tcp_server/tcp_server.cc:142 | the request declared on the stack has empty text fields |
| ServerSession.Answer | src/tcp_server/tcp_server.cc:147-158 | a failed handler, and a successful system() run, get an END reply; the result becomes the loop's error |
| ServerSession.CmdPacketAsWritten | src/tcp_server/tcp_server.cc:141-159 | as written, the handler runs on whatever was deserialized even when deserializing failed, and its result overwrites the failure |
| ServerSession.CmdPacket | src/tcp_server/tcp_server.cc:141-159 | corrected, a body that fails to deserialize closes the connection and runs nothing; one that deserializes is handled |
| ServerSession.FilePacket | src/tcp_server/tcp_server.cc:161-177 | a file request is answered with RESP 0 and the error text; a reply the socket does not take whole corrupts the connection |
| ServerSession.Dispatch | src/tcp_server/tcp_server.cc:130-231 | the switch never changes the sequence number; in KL_AUTHORIZE it can only move to KL_CMD_INPUT; in any other state the state and the commands started are kept |
| ServerSession.AuthorizePacket | src/tcp_server/tcp_server.cc:136-181 | a bad checksum closes the connection; opcodes other than CMD and FILE change nothing; a CMD packet goes to the command branch |
| ServerSession.InputPacket | src/tcp_server/tcp_server.cc:182-227 | while the command runs only END, PACK and TIMEOUT matter; a bad checksum closes; PACK does nothing; END is handled; TIMEOUT closes, killing the child first in kill mode |
| ServerSession.InputEnd | src/tcp_server/tcp_server.cc:183-195 | END answers with the reader's running checksum, closes the child's stdin and leaves the loop; a checksum reply the socket does not take whole corrupts the connection |
| ServerSession.Admit | src/tcp_server/tcp_server.cc:107-134 | a packet is admitted exactly when its head deserializes and is not QUIT; in KL_INITIALIZE its sequence number is adopted and the session moves to KL_AUTHORIZE |
| ServerSession.Step | src/tcp_server/tcp_server.cc:90-233 | an ended reader stops the loop with KL_TCP_ERR_PTHREAD_CHILD_QUIT; a read timeout changes nothing; another failed read or a refused head closes; after the first packet the sequence number is kept |
| ServerSession.Serve | src/tcp_server/tcp_server.cc:90-233 | the loop stops changing the session once an error is set or an exit was asked for |
| ServerSession.Finish | src/tcp_server/tcp_server.cc:74-83 | the socket is closed, the child's pipes are closed, the reader is marked exactly when an error was set while it streamed, and joined unless it ended the loop |
| ServerSession.NewSessionConsistent | src/tcp_server/tcp_server.h:134 | a new session has the shape every pass keeps |
| ServerSession.HandleConsistent | src/tcp_server/tcp_server.cc:263-299 | the command handler keeps the session's shape |
| ServerSession.AnswerConsistent | src/tcp_server/tcp_server.cc:147-158 | answering keeps the session's shape |
| ServerSession.CmdPacketConsistent | src/tcp_server/tcp_server.cc:141-159 | the command branch as written keeps the session's shape |
| ServerSession.CorrectedCmdPacketConsistent | src/tcp_server/tcp_server.cc:141-159 | the corrected command branch keeps the session's shape |
| ServerSession.AuthorizeConsistent | src/tcp_server/tcp_server.cc:136-181 | the KL_AUTHORIZE branch keeps the session's shape |
| ServerSession.InputConsistent | src/tcp_server/tcp_server.cc:182-227 | the KL_CMD_INPUT branch keeps the session's shape |
| ServerSession.DispatchConsistent | src/tcp_server/tcp_server.cc:130-231 | the switch keeps the session's shape |
| ServerSession.AdmitConsistent | src/tcp_server/tcp_server.cc:107-134 | admitting a packet keeps the shape, leaves KL_INITIALIZE behind and never moves the state back |
| ServerSession.StepConsistent | src/tcp_server/tcp_server.cc:90-233 | every pass keeps the session's shape and moves its state only forward |
| ServerSession.NoDispatchConsistent | src/tcp_server/tcp_server.cc:92-111 | a pass that dispatches nothing keeps the shape and the state |
| ServerSession.ServeConsistent | src/tcp_server/tcp_server.cc:90-233 | over a whole connection the shape is kept and the state never goes back |
| ServerSession.ServeKeepsSequence | src/tcp_server/tcp_server.cc:119-128 | after the first admitted packet the sequence number never changes |
| ServerSession.ForeignSequenceCloses | src/tcp_server/tcp_server.cc:119-125 | after the first packet, a packet under any other sequence number closes the connection whatever it is |
| ServerSession.QuitCloses | src/tcp_server/tcp_server.cc:113-117 | a QUIT packet closes the connection in every state |
| ServerSession.ReadWriteOpens | src/tcp_server/kl_pcmd.cc:42-250 | OpenCmd accepts mode "rw" whenever the system lets the child start |
| ServerSession.ReadWriteText | src/util/kl_tool.cc:403 | the bytes kl_tool sends as its mode read as "rw" |
| ServerSession.ReadWriteCommandLaunches | src/tcp_server/tcp_server.cc:141-159 | a well-formed popen request in mode "rw" starts its command and moves the session into KL_CMD_INPUT |
| ServerSession.ClientCommandLaunches | src/util/kl_tool.cc:301-326 | the frame kl_tool sends for a command, read by a fresh session in the same checksum mode, starts that command in mode "rw" under the client's sequence number |
| ServerSession.Authorized | src/tcp_server/tcp_server.cc:126-134 | the first admitted packet leaves a fresh session in KL_AUTHORIZE under its sequence number, with nothing started |
| ServerSession.FreshCommandStep | src/tcp_server/tcp_server.cc:90-159 | a fresh session hands a first command packet with a good checksum to the command branch under the packet's sequence number |
| ServerSession.FreshCommandLaunches | src/tcp_server/tcp_server.cc:90-159 | a fresh session reading a well-formed popen request in mode "rw" starts it |
| ServerSession.EmptyModeNeverRuns | src/tcp_server/tcp_server.cc:268-270 | as written, an empty mode becomes "rwc", which OpenCmd refuses: the request fails with KL_TCP_ERR_INTERNAL_ERROR and nothing starts |
| ServerSession.EmptyModeRunsReadWrite | src/tcp_server/tcp_server.cc:268-270 | corrected, the same request starts its command through popen in mode "rw" and enters KL_CMD_INPUT |
| ServerSession.TruncatedFails | src/tcp_server/tcp_protocol.cc:154-161 | a command body cut short after the command text fails to deserialize |
| ServerSession.TruncatedCommandStillRuns | src/tcp_server/tcp_server.cc:143-147 | as written, such a body still runs its command, through system() when the stack's open type is non-zero, and its rate limit is applied |
| ServerSession.TruncatedCommandRefused | src/tcp_server/tcp_server.cc:143-147 | corrected, the same body closes the connection and runs nothing |
| ServerSession.ConnectionCleansUp | src/tcp_server/tcp_server.cc:74-83 | at the end of a connection the socket is closed, and a command whose output was streamed was the last one started, with both pipes closed |
| PCmd.ToPid | src/tcp_server/kl_pcmd.cc:23 | a pid below 2^31 is kept, and any value keeps its low 32 bits |
| PCmd.ParseProcStat | src/tcp_server/kl_pcmd.cc:16-29 | a stat line with fewer than four space-separated fields fails; otherwise the state is the third field, never empty |
| PCmd.ProcStatRoundTrip | src/tcp_server/kl_pcmd.cc:16-29 | a stat line written as the kernel writes it reads back as its pid, name, state and parent pid |
| PCmd.ParseOfParts | src/tcp_server/kl_pcmd.cc:16-29 | a line whose fields the tokenizer finds unchanged parses into those fields |
| PCmd.PidReadBack | src/tcp_server/kl_pcmd.cc:23 | a rendered pid reads back as the same pid_t |
| PCmd.ParseOfFields | src/tcp_server/kl_pcmd.cc:16-29 | the parse is read off the first four tokens |
| PCmd.StatPartsClean | src/tcp_server/kl_pcmd.cc:17 | the fields of a stat line are non-empty and hold no space, so the tokenizer finds them |
| PCmd.NumberHasNoSpace | src/tcp_server/kl_pcmd.cc:17 | a rendered number holds no space |
| PCmd.NumberReadBack | src/tcp_server/kl_pcmd.cc:23-26 | strtoull reads a rendered pid back |
| PCmd.TrimParentheses | src/tcp_server/kl_pcmd.cc:24 | trimming "()" off "(name)" gives the name back when it neither starts nor ends with a parenthesis |
| PCmd.GetProcStat | src/tcp_server/kl_pcmd.cc:368-383 | an unreadable stat file fails; a readable one is parsed |
| PCmd.ScanMode | src/tcp_server/kl_pcmd.cc:57-80 | the mode scan succeeds exactly when every letter before the NUL is one of r, w, e and 2, and each flag is set exactly when its letter occurs |
| PCmd.ParseMode | src/tcp_server/kl_pcmd.cc:57-86 | a mode is accepted exactly when every letter is known and it asks for reading or writing |
| PCmd.ReadWriteModeAccepted | src/tcp_server/kl_pcmd.cc:57-86 | mode "rw" opens both directions |
| PCmd.UnknownLetterRejected | src/tcp_server/kl_pcmd.cc:75-78 | mode "rwc" is refused because 'c' is no mode letter |
| PCmd.NewPopen | src/tcp_server/kl_pcmd.h:53 | a new handle has no child and no stream |
| PCmd.ExitStatus | src/tcp_server/kl_pcmd.cc:349 | WEXITSTATUS keeps bits 8 to 15 of the status word |
| PCmd.Close | src/tcp_server/kl_pcmd.cc:306-350 | a handle with no stream returns 0 unchanged; otherwise both streams end closed, a timed handle first tries the kill, an ignored wait returns 0, and the child pid is forgotten only when there was one |
| PCmd.CloseTwice | src/tcp_server/kl_pcmd.cc:306-310 | a second Close finds nothing to do and returns 0 |
| PCmd.CloseReportsExitCode | src/tcp_server/kl_pcmd.cc:324-349 | a child that exited with code e is reported as e, and a failed wait as 1 |
| PCmd.CloseWriteFp | src/tcp_server/kl_pcmd.cc:352-358 | only the stream to the child's stdin is closed |
| PCmd.CloseReadFp | src/tcp_server/kl_pcmd.cc:360-366 | only the stream from the child's stdout is closed |
| PCmd.KillChildExecClose | src/tcp_server/kl_pcmd.cc:385-404 | the child is signalled exactly when its stat record reads and names the given parent, and the result is whether the kill worked |
| PCmd.Elapsed | src/tcp_server/kl_pcmd.cc:266 | the uint64 difference is the true elapsed time when the clock moved forward |
| PCmd.WaitChildToExec | src/tcp_server/kl_pcmd.cc:252-292 | the child is only killed when the server's path is known and the kill works |
| PCmd.LateLooks | src/tcp_server/kl_pcmd.cc:262-275 | the counted looks are at most the looks made |
| PCmd.WaitKillsAfterElevenLate | src/tcp_server/kl_pcmd.cc:262-286 | the wait kills the child exactly when the kill works and more than ten looks after the first second find it still the forked server |
| PCmd.AbsolutePathNeverWaits | src/tcp_server/kl_pcmd.cc:253-264 | as written, the absolute path of the server is compared with a process name that holds no '/', so the wait ends at the first readable look and never kills |
| PCmd.CommOf | src/tcp_server/kl_pcmd.cc:24 | the name a stat record shows holds no '/' and at most 15 characters |
| PCmd.WaitChildToExecByComm | src/tcp_server/kl_pcmd.cc:252-292 | corrected, comparing with the image name, the child is killed exactly when the kill works and more than ten late looks find it still the forked server |
| PCmd.ForkedChildRecognised | src/tcp_server/kl_pcmd.cc:262-264 | the stat record of a child that has not exec'd yet is recognised by the comparison with the image name and not by the comparison with the path |
| PCmd.OpenCmd | src/tcp_server/kl_pcmd.cc:42-250 | an unaccepted mode fails with nothing changed; success means pipes and fork worked and the child was not killed, and the handle then holds the child, the command and the streams the mode asked for |
| RequestDealer.NewDealer | src/request_dealer/request_dealer.h:19 | a new dealer has no success, no error and no info |
| RequestDealer.ProtocalValid | src/request_dealer/request_dealer.cc:80-110 | a request is valid exactly when it has the request id, job_type and paras members and a supported job type; each missing piece has its own error, checked in that order, and a valid type is a recognised one |
| RequestDealer.ParseRequest | src/request_dealer/request_dealer.cc:14-26 | text the JSON reader rejects fails with the reader's message; parsed text is validated |
| RequestDealer.ParaStr | src/request_dealer/request_dealer.cc:176-188 | the command line is the name, a space, then the parameters with one space between neighbours |
| RequestDealer.JoinSnoc | src/request_dealer/request_dealer.cc:181-188 | appending a parameter appends a space and the parameter |
| RequestDealer.ConstructCommand | src/request_dealer/request_dealer.cc:176-228 | the command is prefixed with the util directory exactly when its name is one of the utilities there, and the placeholder is replaced by the tmp-data path; a failed listing is reported |
| RequestDealer.CommandWords | src/request_dealer/request_dealer.cc:176-228 | the words of the command line are the name and then the parameters, when none is empty or holds a space |
| RequestDealer.TrailingSpace | src/request_dealer/request_dealer.cc:180 | a name with no parameters still tokenizes to the name alone |
| RequestDealer.PingPong | src/request_dealer/request_dealer.cc:144-149 | ping_pong always succeeds with the info "success" |
| RequestDealer.ExecuteCommand | src/request_dealer/request_dealer.cc:151-174 | the command is started and succeeds exactly when it launched and wrote nothing to stderr; a failure keeps the previous success and info |
| RequestDealer.UpdateInstance | src/request_dealer/request_dealer.cc:296-308 | only the success flag changes, and an unknown instance type changes nothing |
| RequestDealer.Delegate | src/request_dealer/request_dealer.cc:248-294 | a delegated job's result is both the return value and the success flag, with its info |
| RequestDealer.Deal | src/request_dealer/request_dealer.cc:28-78 | a type without a handler fails with "Unrecongnized job type"; a handled one returns its success or fails with the flag untouched |
| RequestDealer.CheckPortIdleUnhandled | src/request_dealer/request_dealer.cc:28-78 | check_port_idle is a recognised type, yet Deal has no handler for it and reports it unrecognised |
| RequestDealer.HandledTypes | src/request_dealer/request_dealer.cc:28-78 | the handled types are the recognised ones except check_port_idle |
| RequestDealer.DealReportsItsResult | src/request_dealer/request_dealer.cc:28-78 | from a fresh dealer what Deal returns is the success flag the response reports |
| RequestDealer.StatusStr | src/request_dealer/request_dealer.cc:112-114 | the status is "success" exactly after success and "failed" otherwise |
| RequestDealer.Info | src/request_dealer/request_dealer.cc:116-121 | the info is the error text after a failure and the deal info after success |
| RequestDealer.FetchResponse | src/request_dealer/request_dealer.cc:123-142 | the response has exactly the id, task_spec_info, status and info members; the info is embedded as JSON when it parses and as a string otherwise |
| RequestDealer.FailureAnswered | src/request_dealer/request_dealer.cc:123-142 | a failed job answers "failed" with its error text as the info |
| InstanceRegistry.NewInstance | src/instance_info.cc:51-56 | a new instance carries the kind, address and login it was built with, no placement and a wait of 0 |
| InstanceRegistry.First | src/instance_info.cc:424-432 | the scan finds the first matching position, and finds nothing only when no instance matches |
| InstanceRegistry.SetAutoPullup | src/instance_info.cc:460-505 | only waits change; a port of 0 or below sets every wait, any other port sets exactly the first instance with that port in meta, then storage, then computer order |
| InstanceRegistry.SetAutoPullupKeepsEntries | src/instance_info.cc:460-505 | set_auto_pullup keeps every registered instance in place and is idempotent |
| InstanceRegistry.SameExceptWaitsKeys | src/instance_info.cc:460-505 | after a wait change every search by port or address finds the same positions |
| InstanceRegistry.RemoveFirst | src/instance_info.cc:424-432 | erase removes exactly the first match and keeps the rest in order; without a match the list is unchanged |
| InstanceRegistry.RemoveStorage | src/instance_info.cc:420-443 | the first storage instance at the address goes, or failing that the first meta one; computer instances stay |
| InstanceRegistry.RemoveComputer | src/instance_info.cc:445-458 | only the first computer instance at the address goes; meta and storage stay |
| InstanceRegistry.RemoveFirstCount | src/instance_info.cc:424-432 | erasing takes away one matching instance when there is one, and never adds anything |
| InstanceRegistry.RemoveStorageCount | src/instance_info.cc:420-443 | remove_storage_instance lowers the number of meta and storage instances at the address by one when there is any |
| InstanceRegistry.ProbeAlive | src/instance_info.cc:507-580 | a probe reports alive iff one of its three attempts got an answer, and stops at the first answer |
| InstanceRegistry.KeepaliveStep | src/instance_info.cc:588-605 | a waiting instance counts down without a probe; an idle one that fails its probe is set to wait 9 and asks for a start |
| InstanceRegistry.KeepaliveList | src/instance_info.cc:586-606 | one pass keeps the list's length and updates each instance by its own probe |
| InstanceRegistry.Keepalive | src/instance_info.cc:582-646 | keepalive_instance changes only waits and asks for at most one start per instance |
| InstanceRegistry.KeepaliveListRequests | src/instance_info.cc:582-646 | a start is asked for exactly the instances that were not waiting and failed their probe |
| InstanceRegistry.PausedPassRequestsNothing | src/instance_info.cc:460-646 | after a port-less set_auto_pullup with a positive wait the next pass asks for no start |
| InstanceRegistry.NoRequestWhileWaiting | src/instance_info.cc:588-595 | a list in which every instance waits yields no start request |
| InstanceRegistry.CountdownAfter | src/instance_info.cc:590-595 | after n passes a wait w is max(0, w - n * interval), with nothing else changed |
| InstanceRegistry.RestartSilence | src/instance_info.cc:588-605 | after a failed probe the instance is left alone for as long as n * interval is below 9 |
| InstanceRegistry.ValueInt | src/instance_info.cc:186 | a port is an int: a number in range is kept, out of range it saturates, `true` reads as 1 and anything else as 0 |
| InstanceRegistry.NodeOf | src/instance_info.cc:262-305 | a node with its login members becomes an instance of the list's kind with no wait |
| InstanceRegistry.ReadNodes | src/instance_info.cc:258-308 | every instance read is of the list's kind and not waiting |
| InstanceRegistry.LoadList | src/instance_info.cc:212-314 | a failed post or unparsable reply keeps the list and returns 0; otherwise the list is replaced by the nodes read |
| InstanceRegistry.NodeKeyInjective | src/instance_info.cc:258 | distinct node numbers give distinct keys |
| InstanceRegistry.NodeOfValue | src/instance_info.cc:262-305 | a node written from a loadable instance reads back as that instance |
| InstanceRegistry.LoadRoundTrip | src/instance_info.cc:212-314 | reloading an answer that lists instances in order yields exactly those instances |
| InstanceRegistry.Refreshed | src/instance_info.cc:95-116 | no "instance_type" reloads all three lists, a known type reloads its list, anything else reloads none |
| InstanceRegistry.GetLocalInstance | src/instance_info.cc:95-116 | the lists named by the request are reloaded and the others are untouched |
| InstanceRegistry.RefreshAllIsEachList | src/instance_info.cc:95-106 | a request without a type equals the three single-list reloads in turn |
| InstanceRegistry.UnknownTypeKeepsRegistry | src/instance_info.cc:108-115 | an unknown instance type leaves the registry unchanged |
| PathSpace.FirstNotOfSpec | src/instance_info.cc:748 | find_first_not_of returns the first non-space position, and npos exactly when every character is a space |
| PathSpace.LastNotOfSpec | src/instance_info.cc:749 | find_last_not_of returns the last non-space position, and npos exactly when every character is a space |
| PathSpace.TrimString | src/instance_info.cc:746-754 | the trimmed string is empty exactly when the input is all spaces, and otherwise starts and ends with a non-space |
| PathSpace.TrimStringAsWritten | src/instance_info.cc:746-754 | the code as written leaves either nothing or a trimmed string of at least two characters |
| PathSpace.TrimStringAsWrittenDropsShort | src/instance_info.cc:750-753 | the test `s>=e` differs from a trim only by emptying a one-character result |
| PathSpace.RootPathTrimmedAway | src/instance_info.cc:750-753 | "/" is emptied as written and kept by the corrected trim |
| PathSpace.TrimStringIsTrim | src/instance_info.cc:746-754 | the corrected trimString removes exactly the leading and trailing spaces |
| PathSpace.TrimStringOfTrimmed | src/instance_info.cc:746-754 | trimming a trimmed string changes nothing |
| PathSpace.PathListTrimmed | src/instance_info.cc:756-784 | every path get_vec_path keeps has two characters or more and no space at either end |
| PathSpace.OneCharacterPathDropped | src/instance_info.cc:756-784 | a group naming a one-character path yields no path |
| PathSpace.PathListOfJoin | src/instance_info.cc:756-784 | paths joined with ';' are read back as the same list |
| PathSpace.GetVecPath | src/instance_info.cc:756-784 | the loop appends exactly the kept pieces to the vector and answers whether the vector is non-empty |
| PathSpace.Fgets | src/instance_info.cc:664 | a read takes a non-empty prefix of at most 255 characters that stops after the first newline |
| PathSpace.FgetsLine | src/instance_info.cc:664 | a short line is read whole with its newline |
| PathSpace.ShiftRight10 | src/instance_info.cc:672 | `>> 10` is the floor of the quotient by 1024 |
| PathSpace.ToUInt64 | src/instance_info.cc:672 | the result is below 2^64 and a value already in range is kept |
| PathSpace.UsedOfLine | src/instance_info.cc:668-673 | a line yields a size exactly when it holds a tab |
| PathSpace.PathUsed | src/instance_info.cc:648-680 | get_path_used succeeds exactly when the first output line holds a tab |
| PathSpace.DuLineRead | src/instance_info.cc:648-680 | a du line "n<TAB>path" reads back as n >> 10 |
| PathSpace.FieldFourOf | src/instance_info.cc:706-728 | the three strchr/skip steps land on the fourth field |
| PathSpace.PathFreeAsWritten | src/instance_info.cc:682-744 | as written, a second line that ends with its fourth field writes through a null pointer, and only then |
| PathSpace.PathFree | src/instance_info.cc:682-744 | with `q` tested, get_path_free fails exactly where the code as written would write through null, and otherwise agrees with it |
| PathSpace.DfLineRead | src/instance_info.cc:682-744 | a df listing whose second line has n as its fourth field gives n >> 10 |
| PathSpace.FourFieldLineWritesThroughNull | src/instance_info.cc:730-736 | a four-field second line makes the code as written write through null and the corrected one fail |
| PathSpace.ErrorJson | src/instance_info.cc:873-878 | the error answer carries "error", the info text and no path list |
| PathSpace.SuccessJson | src/instance_info.cc:854-872 | the success answer carries "succeed", an empty info and one array per group, one object per path |
| PathSpace.UsagesCount | src/instance_info.cc:821-843 | each path of a group either yields an entry or is reported as failed |
| PathSpace.FailedPathsIff | src/instance_info.cc:821-832 | a path is reported exactly when its free space cannot be read |
| PathSpace.ReadGroup | src/instance_info.cc:821-843 | the inner loop yields the readable paths' entries and the unreadable paths, each in order |
| PathSpace.GetPathLists | src/instance_info.cc:806-809 | each group's path list is what get_vec_path reads from it |
| PathSpace.InfoIsJoin | src/instance_info.cc:811-814 | the error text is the failed items joined with ';' |
| PathSpace.GroupFailuresIff | src/instance_info.cc:806-844 | a group adds nothing to the error text exactly when it names paths and every one of them can be read |
| PathSpace.FailuresIff | src/instance_info.cc:806-844 | the error list is empty exactly when every group is readable |
| PathSpace.AssembleGroup | src/instance_info.cc:806-844 | one pass of the group loop extends the error text and the entry lists by that group's share |
| PathSpace.AssembleGroups | src/instance_info.cc:806-844 | the group loop ends with the whole error text and entry lists |
| PathSpace.AssemblePathSpace | src/instance_info.cc:806-885 | success exactly when every group is readable; then the success answer, else the error answer with " is error" appended |
| PathSpace.SetPathSpace | src/instance_info.cc:786-886 | set_path_space returns true exactly when every group names paths whose free space can be read, with the matching JSON answer |
| Job.SystemCmd | src/job.cc:46-65 | job_system_cmd reports success whatever the launch and the command's error output |
| Job.LibName | src/job.cc:1007-1023 | a library named by an error line holds no ':' and does not start with a space |
| Job.LibsOfNamed | src/job.cc:1004-1024 | a library is in the set exactly when some error line names it |
| Job.LibsOfNamedAt | src/job.cc:1004-1024 | the same for one library, by induction over the lines |
| Job.LibNameOfLoaderMessage | src/job.cc:1007-1023 | the loader's "error while loading shared libraries: lib: ..." line names lib |
| Job.ReinstallAsWritten | src/job.cc:934-1032 | as written the set of libraries accumulates over every run, and at most nine reruns happen |
| Job.StaleLibsExhaustRetries | src/job.cc:1028-1032 | once a run names a library, the set stays non-empty, so the loop as written reinstalls until the retries are spent |
| Job.Reinstall | src/job.cc:934-1032 | with the set emptied per run the loop stops at the first run that names no library, within nine reruns |
| Job.AddLibCommandsAsWritten | src/job.cc:344-356 | as written there is one copy command per library, each changing to the literal directory "program_path" |
| Job.AddLibIgnoresLibDir | src/job.cc:347-351 | the commands as written do not depend on the package's lib directory |
| Job.AddLibCommands | src/job.cc:344-356 | the corrected commands copy each library and nothing else |
| Job.AddLibUsesLibDir | src/job.cc:344-356 | every corrected command first changes to the package's lib directory |
| Job.WaitAlive | src/job.cc:1036-1050 | the instance counts as up iff one of the probes answers; probing stops at the first answer |
| Job.InstallStorage | src/job.cc:880-1062 | job_install_storage reports "BiodirectPopen error" exactly when one of its installer runs fails to launch; it reruns only while the accumulated library set is non-empty, and succeeds exactly when every run launched and a probe answered |
| Job.InstallStorageCorrected | src/job.cc:880-1062 | with the set emptied per run, a rerun follows only a run that named a library; the messages and the success condition are those of the install as written |
| Job.StaleLibsReachFailedRun | src/job.cc:934-1032 | as written, a first run naming a library, a clean second run and a third that fails to launch end in "BiodirectPopen error" |
| Job.FreshLibsInstall | src/job.cc:934-1062 | with the set emptied per run, the same runs stop after the clean second run and the install succeeds once the instance answers |
| Job.RunCommands | src/job.cc:134-222 | the run stops at the first command popen cannot launch, and succeeds exactly when every command launches |
| Job.ControlStorage | src/job.cc:134-222 | codes other than 1, 2 and 3 run nothing and fail; otherwise success means each command launched |
| Job.RestartIsStopThenStart | src/job.cc:180-217 | a restart runs the stop commands and then, when they launched, the start commands |
| Job.DatadirOf | src/job.cc:253-272 | with no node at the ip and port the data directory is empty |
| Job.ControlComputer | src/job.cc:224-342 | codes outside 1 to 3 fail, a stop or restart fails without a readable pgsql_comp.json, and success means each command launched |
| Job.ComputerStartIgnoresFile | src/job.cc:240-302 | a computer start runs start_pg.py alone and does not read pgsql_comp.json |
| Job.ControlCode | src/job.cc:842-858 | exactly "stop", "start" and "restart" have a control code, 1, 2 and 3 |
| Job.ControlInstanceAsWritten | src/job.cc:827-878 | as written the auto pull-up is paused and resumed around the job, and only the three messages of the job can result |
| Job.UnknownControlReadsStale | src/job.cc:830-860 | an unknown "control" answers with whatever the uninitialised `ret` held |
| Job.ComputerStopKeepsComputer | src/job.cc:851-854 | as written a computer "stop" leaves the computer instance registered |
| Job.ControlInstance | src/job.cc:827-878 | the corrected job refuses an unknown "control" without running anything |
| Job.ComputerStopUnregisters | src/job.cc:851-854 | the corrected computer "stop" removes the computer's registration and leaves storage alone |
| Job.NetstatPidAsWritten | src/job.cc:784-799 | a pid read from a LISTEN line holds no '/' and does not start with a space |
| Job.DashProgramUndefined | src/job.cc:793-796 | a LISTEN line whose program column is "-" reaches the unchecked '/' search with NULL |
| Job.NetstatPid | src/job.cc:784-799 | with the '/' search checked the pid agrees with the code wherever that is defined |
| Job.NetstatPidOfLine | src/job.cc:784-799 | a line "...LISTEN   pid/program" gives pid |
| Job.NodeExporter | src/job.cc:764-825 | node_exporter is started exactly when netstat shows no pid, and the job succeeds exactly when the listing launched and any needed start launched |
| RebuildNode.StepNamesDistinct | src/rebuild_node/rebuild_node.cc:82-265 | each step stores its own name, none of them "done", and every failure code a step leaves is an error |
| RebuildNode.OneRow | src/rebuild_node/rebuild_node.cc:88-99 | a lookup is usable exactly when the statement ran and returned one row |
| RebuildNode.HostSplit | src/rebuild_node/rebuild_node.cc:84-85 | a host written "ip_port" splits back at its last '_' into ip and port |
| RebuildNode.ToolDirOfPluginDir | src/rebuild_node/rebuild_node.cc:145-149 | the tool directory is the plugin directory with its last three components replaced by "dba_tools" |
| RebuildNode.NewNode | src/rebuild_node/rebuild_node.h:18-22 | a new job has no error code and no step |
| RebuildNode.BinlogGtid | src/rebuild_node/rebuild_node.cc:433-455 | an unreadable file gives ""; a gtid set read holds no tab; "" from a readable file means it holds only tabs |
| RebuildNode.BinlogGtidOfLine | src/rebuild_node/rebuild_node.cc:433-455 | the one-line file "file<TAB>position<TAB>gtid-set" gives the gtid set |
| RebuildNode.RunStep | src/rebuild_node/rebuild_node.cc:82-326 | a step names itself, keeps the error code when it goes through and leaves one of its own codes when it does not |
| RebuildNode.Status | src/rebuild_node/rebuild_node.cc:328-346 | the status is "failed" exactly for an error code, "done" exactly for no error with the step "done", else "ongoing" |
| RebuildNode.RunOne | src/rebuild_node/rebuild_node.cc:25-79 | a step after passing ones records "ongoing" when it goes through and "failed" with its own name and code otherwise |
| RebuildNode.FailedAtAppend | src/rebuild_node/rebuild_node.cc:28-73 | the record of the first failing step marks where the run stopped |
| RebuildNode.OngoingAppend | src/rebuild_node/rebuild_node.cc:28-73 | a passing step's record extends the run of "ongoing" records by one |
| RebuildNode.Run | src/rebuild_node/rebuild_node.cc:25-79 | the run succeeds exactly when every step goes through; one record per step reached, the last "done" on success and "failed" at the first failing step otherwise |
| RebuildNode.PullHostLookupRecordsUndefined | src/rebuild_node/rebuild_node.cc:88-99 | a failed pull-host lookup is recorded as "failed" with the catch-all message, since its code lies past the message table |
| Flashback.FirstContaining | src/util/kunlun_flashback.cc:39-47 | the element found is the first of the set that holds the uuid, and none is found only when no element holds it |
| Flashback.LastOfElement | src/util/kunlun_flashback.cc:54-69 | an accepted element gives "uuid:last" |
| Flashback.GetLastGtid | src/util/kunlun_flashback.cc:38-70 | a set in which no element holds the uuid makes the tool exit |
| Flashback.LastOfInterval | src/util/kunlun_flashback.cc:60-62 | "uuid:a-b" gives "uuid:b" |
| Flashback.LastOfSingle | src/util/kunlun_flashback.cc:63-64 | "uuid:a" gives "uuid:a" |
| Flashback.SeveralIntervalsRefused | src/util/kunlun_flashback.cc:54-59 | an element with two intervals is refused |
| Flashback.SeveralDashesRefused | src/util/kunlun_flashback.cc:60-69 | an interval with more than one '-' is refused |
| Flashback.LastOfElementIdempotent | src/util/kunlun_flashback.cc:54-69 | the answer read again gives itself back |
| Flashback.LastGtidOfSet | src/util/kunlun_flashback.cc:38-70 | in a set whose earlier elements lack the uuid, "uuid:a-b" gives "uuid:b" |
| Flashback.UuidFromMeta | src/util/kunlun_flashback.cc:72-98 | a given previous_master_uuid is the answer; otherwise the query must succeed with exactly one row, whose uuid is the answer |
| Flashback.Setting | src/util/kunlun_flashback.cc:143-145 | a configured key gives its value and a missing one "" |
| Flashback.MetaLogin | src/util/kunlun_flashback.cc:139-150 | the metadata login comes from the configuration when it parses and from the flags otherwise |
| Flashback.FlagHostSplitsBack | src/util/kunlun_flashback.cc:147 | the host built from the flags splits back into meta_host and the decimal meta_port |
| Flashback.StartPosition | src/util/kunlun_flashback.cc:262-264 | a start position of "0" becomes 4 and any other is kept |
| Flashback.StartPositionIdempotent | src/util/kunlun_flashback.cc:262-264 | fixing the position twice is fixing it once |
| Flashback.NumericStartPosition | src/util/kunlun_flashback.cc:259-264 | a numeric "pos" of 0 starts at 4 and any other number at itself |
| Flashback.LogFileName | src/util/kunlun_flashback.cc:125-127 | the log file name is the last non-empty '/'-component, and a path without one has none |
| Flashback.ReadPaths | src/util/kunlun_flashback.cc:152-183 | my.cnf is accepted exactly when log-bin's directory, plugin-dir and socket are all non-empty |
| Flashback.Flash | src/util/kunlun_flashback.cc:211-361 | up to six commands run in their fixed order; exit 0 needs all six and then depends only on the truncation's launch |
| Flashback.Prepare | src/util/kunlun_flashback.cc:100-209 | too few arguments exit 1; a failed metadata connection exits -1; every other early failure exits 1 |
| Flashback.Main | src/util/kunlun_flashback.cc:100-361 | nothing is launched unless every check passes, and exit 0 means all six commands ran |
| Flashback.PrepareIgnoresLaunch | src/util/kunlun_flashback.cc:100-209 | the checks before the first launch do not depend on any launch |
| Flashback.ApplyFailureIgnored | src/util/kunlun_flashback.cc:305-318 | a failed apply of the flashback script does not change the outcome |
| Flashback.TruncateErrorOutputIgnored | src/util/kunlun_flashback.cc:348-359 | the truncation's error output does not change the outcome, only its launch |
| Flashback.UuidFlagSkipsQuery | src/util/kunlun_flashback.cc:74-76 | with previous_master_uuid given the metadata answer is never read |
| SafeKill.FirstNotIn | src/util/safe_killmysql.cc:17 | find_first_not_of gives the first non-blank position, and npos exactly when all characters are blank |
| SafeKill.LastNotIn | src/util/safe_killmysql.cc:18 | find_last_not_of gives the last non-blank position, and npos exactly when all characters are blank |
| SafeKill.KillTrimIsTrim | src/util/safe_killmysql.cc:16-24 | trim removes exactly the leading and trailing blanks |
| SafeKill.GetLines | src/util/safe_killmysql.cc:56 | no line getline extracts holds a newline |
| SafeKill.FileContent | src/util/safe_killmysql.cc:47-62 | a file that does not open reads as "" |
| SafeKill.ContentDropsNewlines | src/util/safe_killmysql.cc:55-59 | since trim's result is discarded, the content is the file with only its line breaks removed |
| SafeKill.CmdScan | src/util/safe_killmysql.cc:29-39 | the scan only moves forward and no token it pushes holds a NUL |
| SafeKill.TokenizeCmdLineAsWritten | src/util/safe_killmysql.cc:26-45 | no token the code as written pushes holds a NUL |
| SafeKill.CmdArgs | src/util/safe_killmysql.cc:26-45 | no argument the corrected tokenizer gives holds a NUL |
| SafeKill.CmdArgsOfCmdLine | src/util/safe_killmysql.cc:26-45 | the corrected tokenizer gives back every argument of a cmdline, empty ones too |
| SafeKill.NoNulOneToken | src/util/safe_killmysql.cc:26-45 | text without NUL is one token when not empty, for both tokenizers |
| SafeKill.CmdLineAsWritten | src/util/safe_killmysql.cc:40-44 | on a cmdline without empty arguments the code as written finds every argument plus one "" read from the terminating NUL |
| SafeKill.EmptyArgumentHidesNext | src/util/safe_killmysql.cc:35-37 | after an empty argument the code as written reads the next one as "", while the corrected tokenizer keeps it |
| SafeKill.ExecuteSpec | src/util/safe_killmysql.cc:71-102 | execute fails exactly on an empty comm, and records the process directory's name exactly for a mysqld or mysqld_safe comm whose cmdline holds the instance's --defaults-file |
| SafeKill.KillFilterIgnoresDirectories | src/util/safe_killmysql.cc:71-72 | the filter does nothing for a directory |
| SafeKill.EntriesAtScanLevel | src/util_func/file_traverse.h:78-80 | at the scan level the walk enters no sub-directory |
| SafeKill.ProcessDir | src/util_func/file_traverse.h:78-140 | the corrected walk executes a process directory's entries and restores level and position after it |
| SafeKill.EntriesOfProc | src/util_func/file_traverse.h:100-136 | the corrected loop over /proc's entries is the level-by-level description |
| SafeKill.CorrectedScanIsProcs | src/util_func/file_traverse.h:68-140 | the corrected walk finds exactly the matches in /proc's entries and in each directory other than "task", and nothing deeper |
| SafeKill.GoneProcessHidesLaterOnes | src/util_func/file_traverse.h:89-97 | a /proc directory that cannot be opened hides every later process from the code as written, while the corrected walk finds them |
| SafeKill.ProcsOfPair | src/util_func/file_traverse.h:68-140 | for a vanished directory followed by a live one the description finds the live one's matches |
| SafeKill.KillCommand | src/util/safe_killmysql.cc:152-154 | the command starts with "kill -9 " |
| SafeKill.KillCommandTokens | src/util/safe_killmysql.cc:152-154 | the command splits back into "kill", "-9" and the pids in order |
| SafeKill.Main | src/util/safe_killmysql.cc:128-166 | a wrong argument count gives -1, a failed walk 1, no pid 0 without a kill, and otherwise a kill whose failure gives 1 |
| HttpClient.ParseUrl | test/http_post_para.cc:46-90 | a URL is refused exactly when it is missing or does not start with "http://"; the host then holds no '/', ':' or NUL |
| HttpClient.SplitPath | test/http_post_para.cc:61-75 | the host is the text up to the first '/', and the path is everything after that '/' |
| HttpClient.UrlOf | test/http_post_para.cc:78-87 | the host is cut at its first ':' and the path is kept |
| HttpClient.ParseUrlText | test/http_post_para.cc:46-90 | a URL written from a host, a port and a path parses back into them, with port 80 when none is written |
| HttpClient.ContentLength | test/http_post_para.cc:92-113 | a length is found only in a buffer holding "Content-Length:", and it is positive |
| HttpClient.ContentLengthOfField | test/http_post_para.cc:92-113 | the field "Content-Length: n" followed by CRLF reads back as n |
| HttpClient.Received | test/http_post_para.cc:182 | one recv takes a prefix of what was sent, at most BUFSIZE - 1 bytes, and all of it when it fits |
| HttpClient.ReplyParts | test/http_post_para.cc:183-206 | a reply is accepted only when it holds "200 OK" and a positive Content-Length, and the body then starts inside it |
| HttpClient.ParaRequestDeclaresLength | test/http_post_para.cc:23-28 | the form request declares the length of the parameter it carries |
| HttpClient.BufferAfterReply | test/http_post_para.cc:182-185 | after the reply the buffer starts with the reply and a NUL |
| HttpClient.BodyAsWritten | test/http_post_para.cc:205 | as written the result is exactly Content-Length bytes long, whatever arrived |
| HttpClient.Body | test/http_post_para.cc:205 | the corrected body is a prefix of the bytes after the header, at most Content-Length long, and all of them when shorter |
| HttpClient.PostParaWith | test/http_post_para.cc:151-213 | the return codes: -1 for a refused URL, -2 for an oversized request, -3 exactly when the connection fails, -4 for a bad reply, and a result only on 0 |
| HttpClient.PostPara | test/http_post_para.cc:151-213 | a non-empty result from the corrected post comes from a connected exchange and consists of reply bytes |
| HttpClient.ShortBodyReadsRequest | test/http_post_para.cc:205 | a body shorter than declared yields, as written, the NUL and bytes of the sent request; the corrected post returns the bytes that arrived |
| HttpClient.ParaMain | test/http_post_para.cc:215-229 | wrong argument counts exit 1, and otherwise the post is made and the exit is 0 |
| HttpClient.GetFilename | test/http_post_file.cc:117-134 | the name is what follows the last '/', and the call succeeds exactly when it is non-empty |
| HttpClient.FileContentLength | test/http_post_file.cc:209-211 | the declared length exceeds the multipart head plus the file size |
| HttpClient.PartWriteEnd | test/http_post_file.cc:221-222 | as written the second snprintf is bounded by the whole buffer's size from offset n; the corrected bound keeps it inside the buffer |
| HttpClient.Accumulate | test/http_post_file.cc:292-299 | the body grows by recv results until it reaches the declared length, and is a prefix of what arrived |
| HttpClient.FileReply | test/http_post_file.cc:268-303 | -6 exactly when a non-empty reply fails the checks, and a non-empty result is reply bytes after the header |
| HttpClient.FileExchange | test/http_post_file.cc:221-307 | -2 exactly for an oversized head, -3 exactly for a failed connection, -5 exactly for a file that does not open, and the reply otherwise |
| HttpClient.PostFileWith | test/http_post_file.cc:174-308 | -4 when the file is missing, checked before the URL, -1 for a refused URL, then the exchange |
| HttpClient.PostFile | test/http_post_file.cc:174-308 | the corrected file post never writes outside the buffer |
| HttpClient.LongParameterOverflows | test/http_post_file.cc:221-228 | a long parameter makes the code as written write past the buffer before it refuses the post with -2, which the corrected post refuses cleanly |
| HttpClient.FileRequestDeclaresLength | test/http_post_file.cc:209-222 | the file request declares exactly the length of the body that follows its header |
| HttpClient.FileMain | test/http_post_file.cc:310-324 | wrong argument counts exit 1, and otherwise the post is made and the exit is 0 |
| HttpLoad.PyInt | test/http_get.py:18 | int() accepts exactly an optional sign and decimal digits inside white space |
| HttpLoad.PyIntOfNatToString | test/http_get.py:18 | a rendered length reads back as itself |
| HttpLoad.FirstDiff | test/http_get.py:29-31 | every byte before the first difference matches, and there the body ends or differs |
| HttpLoad.Compare | test/http_get.py:29-31 | the comparison raises only IndexError |
| HttpLoad.CompareMeaning | test/http_get.py:29-31 | the comparison passes exactly when the file is a prefix of the body, and raises exactly when the body is a proper prefix of the file |
| HttpLoad.CompareBytes | test/http_get.py:29-31 | the byte loop decides what the whole comparison decides |
| HttpLoad.GetCheck | test/http_get.py:11-37 | a status other than 200 fails; passing means status 200, a Content-Length equal to the file's size and the file a prefix of the body |
| HttpLoad.HttpGet | test/http_get.py:11-37 | the script's chunked loop gives the check's answer |
| HttpLoad.CompareChunked | test/http_get.py:22-36 | comparing 1024-byte chunks at their offsets decides what one comparison of the whole file decides |
| HttpLoad.ChunkDiff | test/http_get.py:26-31 | a chunk that fails to match at its offset decides the whole comparison the same way |
| HttpLoad.SavedContentPasses | test/http_get.py:11-37 | a server answering 200 with the saved content and its length passes |
| HttpLoad.RangeHeaderRoundTrip | test/http_get_range.py:25 | the Range header reads back as the byte range it was written for |
| HttpLoad.ReadSize | test/http_get_range.py:21 | read(step) takes everything for a negative step, nothing for 0, and up to step bytes otherwise |
| HttpLoad.RangeFrom | test/http_get_range.py:20-40 | the first range starts where the loop starts, and a step of 0 fails at once |
| HttpLoad.RangeFromShape | test/http_get_range.py:20-40 | the requested ranges each cover one read, follow one another without gap or overlap, and reach the file's end when the check passes |
| HttpLoad.RangeFromStop | test/http_get_range.py:28-34 | a status other than 206, or a chunk that differs from its reply, ends the loop with false |
| HttpLoad.RangeCheck | test/http_get_range.py:12-41 | an empty file fails; a pass means the ranges cover the whole file in order |
| HttpLoad.HttpGetRange | test/http_get_range.py:12-41 | the script's loop gives the check's answer and requests exactly the ranges described |
| HttpLoad.FetchRange | test/http_get_range.py:21-36 | one pass either settles the outcome or moves on by the bytes just read |
| HttpLoad.MirrorAnswers | test/http_get_range.py:25-31 | a mirroring server answers a satisfiable range with 206 and exactly those bytes |
| HttpLoad.MirrorPasses | test/http_get_range.py:12-41 | against a server mirroring the saved file the check passes for every non-zero step |
| HttpLoad.ZeroStepFails | test/http_get_range.py:21-38 | a step of 0 fails for a non-empty file without any request |
| HttpLoad.AsWrittenPassesOnlyOnSocketError | test/http_post_para.py:26-37 | as written the check passes only on a socket error, even for a server echoing back exactly |
| HttpLoad.PostParaCheck | test/http_post_para.py:26-37 | the corrected check passes a reply exactly when it is 200 with the expected text, and passes on a socket error |
| HttpLoad.EchoPasses | test/http_post_para.py:29-33 | an echoing server passes the corrected check, and any other body or status fails it |
| HttpLoad.Passed | test/http_get.py:44-51 | at most as many calls pass as were made |
| HttpLoad.Worker | test/http_get.py:39-55 | the worker counts every call and every pass until the elapsed time exceeds the configured time |
| HttpLoad.Ratio | test/http_get.py:53 | the printed ratio lies between 0 and 100, and is 100 when every call passed |
| HttpLoad.Prepare | test/http_get.py:58-78 | a wrong argument count is a usage error; otherwise the run starts exactly when the first GET answers 200, saving its body |
| HttpLoad.PreparedGetPasses | test/http_get.py:58-78 | when the server keeps answering as it first did, every check of http_get.py passes |
| HttpLoad.PreparedRangePasses | test/http_get_range.py:62-83 | when the server mirrors the body it first sent, every check with a non-zero step passes |
| HttpLoad.PostStart | test/http_post_para.py:59-62 | http_post_para.py stops with a usage error exactly when the argument count is wrong |

## Left out

- Buffers.Buffer: the buffer is an immutable value with an `allocOk` parameter standing for `malloc`/`realloc` success, not the class. So the in-place sharing of one buffer between `recvBuf_` and `rdCmdBuf_` is not modelled; each operation returns a fresh buffer.
- TcpComm.KL_TCP_ERR_SUCCESS: `tcp_error.h` is not part of this model. The `KL_TCP_ERR_*` values are stand-ins. Success is 0 and every error is a distinct negative number. The exact numbers that reach exit codes and END replies may differ from the real header.
- ServerSession.Step: the session thread and the command-reader thread run concurrently and share the connection's `Aconn` state and `fstat_`. The model flattens that into per-pass inputs (`Env`, the reader's poll outcomes), so no interleaving is explored.
- MetaInfo.CBytes: a `char` is hashed as `c as int % 256`, not as the UTF-8 bytes of a non-ASCII character. Job names are ASCII, so the job-type table is unaffected.
- RequestDealer.ParseRequest: jsoncpp's exceptions (for example `asString` on an object) are abstracted away. `JsonTree.AsString` gives "" where jsoncpp would throw.
- KlTool.Main: a `Stop` reaction carries the full `int` exit code, while `exit()` keeps only its low 8 bits.
- CStr.Atoi: overflow of `atoi`/`atol` is not modelled; the value is unbounded.
- Framing.SendMsg: the NUL that `c_str()` writes just past the archive is not modelled; nothing reads it.
- Flashback.LogFileName: for a `general_log_file` without a '/'-separated token, the code reads before the start of the vector. `None` stands for that undefined read.
- Sockets, `poll`, libevent and the brpc HTTP server are not modelled. Every byte received and every connect result is an input.
- `fork`, `pipe`, `exec` and `kill` are not modelled; their outcomes are inputs. The walk over `/proc` is modelled over a given directory tree.
- Threads, semaphores, mutexes and the keepalive and worker thread loops are not modelled, except as one pass or as a loop over given inputs.
- Database clients (MySQL, PostgreSQL) are not modelled. A probe or a query result is an input.
- InstanceRegistry.ReadNodes: instances carry no connection. The `Instance` constructor leaves `mysql_conn` and `pgsql_conn` NULL (src/instance_info.cc:50-53). get_storage_instance and get_computer_instance assign a connection only after the placement members are read (src/instance_info.cc:294-308, 398-412). So the incomplete last node ReadNodes keeps has a NULL connection, and the model does not record that. The registry's replies are read with cJSON, and the model reads them through the jsoncpp-style tree of `JsonTree`. `cJSON_GetObjectItem` matches keys without regard to case and takes the first match in document order. ReadNodes looks keys up exactly, in an unordered map. So a node key or member spelled in another case is missed here, where the code finds it.
- InstanceRegistry.NodeOf: `ip`, `user`, `pwd`, `cluster`, `shard` and `comp` are copied from cJSON's `valuestring` (src/instance_info.cc:183-198, 277-305, 381-409). For a member that is not a string, that pointer is NULL, and building a `std::string` from it is undefined behaviour. The model reads such a member with `AsString` instead, for example a number as its decimal text. NodeOf promises nothing for non-string members.
- InstanceRegistry.Refreshed: the `instance_type` test uses `strcmp` on cJSON's `valuestring` (src/instance_info.cc:99-115). For a non-string value that dereferences NULL, while the model compares `AsString` text. The lookup also ignores case, so a key such as "Instance_Type" selects one list in the code. The model's exact lookup treats that request as having no type and reloads all three lists. Refreshed promises nothing for either case.
- InstanceRegistry.ValueInt: JSON numbers are integers in the model. A fractional port, which cJSON truncates into `valueint`, cannot be written.
- InstanceRegistry.KeepaliveList: the probe of an instance read from an incomplete node goes through its NULL connection (src/instance_info.cc:599, 619, 639). get_mysql_alive and get_pgsql_alive dereference it (src/instance_info.cc:515, 555), which is undefined behaviour. The model treats that probe as an ordinary outcome in `alive` and does not promise anything about this case.
- InstanceRegistry.Keepalive: the same NULL-connection probe applies to each of the three lists it passes over, and it is modelled the same way as an ordinary outcome.
- The retry loops with a sleep between tries (ten connection attempts, liveness waits) are modelled with the outcomes of each try as inputs. The sleeps are not modelled.
- Logging, `syslog` and the log level are not modelled.
- The remaining job.cc operations are not modelled beyond the shared install and control loops. That covers backup, restore, delete, `install_computer`'s own steps, `job_create_program_path` and the save/read of job files. They only assemble and run shell commands.
- `snprintf` into the 2048-byte `RUNTIME_BUFF_SIZE` buffers of job.cc is not modelled; commands are kept as their parameters, not truncated text.
- RebuildNode.RunStep: the shell commands and SQL each step runs are inputs (their success), not rendered text.
- The node_mgr configuration reader (KConfig) is modelled as a map; a missing key reads "".
- Flashback: the JSON of `filepos` is folded into an optional value; `mysqlbinlog`'s output format is an input.
- SafeKill: `closedir` errors and the variable-length array used for a command line that is a lone NUL are not modelled. `_exit(-1)` is kept as -1.
- HttpClient.PostFile: the bytes sent to the server are not modelled, only what is formatted into `http_buf` and what comes back. That includes the file-sending loop, which does not lower the remaining length after a short `send`.
- HttpClient.PostFile: the `close` of the uninitialised `socket_fd` on an early error is not modelled.
- HttpClient.ParseUrl: overflow of the fixed `ip[100]` and `path[256]` buffers by a long URL is not modelled.
- HttpClient.Accumulate: a `recv` that returns -1 or 0 inside the body loop is not modelled; every chunk is delivered.
- HttpClient: `%ld` applied to a `uint64` file size is read as the number itself.
- HttpLoad: the wall clock is a given sequence of elapsed times, not a float.
- HttpLoad: `int()` of a header is modelled for ASCII white space and digits only. Unicode white space, Unicode digits and '_' separators are left out.
- HttpLoad: of the exceptions `requests` can raise, only the socket error that http_post_para catches is modelled.
- HttpLoad: parsing the JSON configuration, the `read_file.mode` check and the decoding of `r.text` are not modelled; `back` is a JSON value.
- HttpLoad.PostParaCheck: the unused `para` argument is dropped.
- Other files are not part of this model and not modelled: `tcp_error.cc`, `main.cc`, `sys.cc`, `node_info.cc`, `rebuild_node_tool.cc`, `delay_demo.cc`, the brpc `server_http`, `download_file` and `test_client`.

## Findings

| source | as written | input that shows it | evidently intended | confidence | as-written member | corrected member |
|---|---|---|---|---|---|---|
| src/util_func/error_code.cc:39-42 | the bound check compares `errNum - EERROR_NUM_START + 1` with the table size as `size_t`, so 59999 gives 0, passes, and indexes `table[-1]` | `get_err_num_str` with errNum 59999 | every number outside 60000..60015 gets the final "Undefined" entry | high, not executed | ErrorCode.BelowFirstCodeReadsOutside | ErrorCode.ErrNumStr |
| src/instance_info.cc:750 | `trimString` returns "" whenever the first and last non-space positions coincide | the path "/" (or " / ") in `get_vec_path` | a one-character path is kept after trimming | high, not executed | PathSpace.RootPathTrimmedAway | PathSpace.TrimString |
| src/tcp_server/tcp_server.cc:268-270 | an empty command mode defaults to "rwc", which `KlPcmd` rejects ('c' is no mode letter) | a CMD request with open_type 0 and an empty mode | the default mode is one the popen wrapper accepts, such as "rw" | high, not executed | ServerSession.EmptyModeNeverRuns | ServerSession.EmptyModeRunsReadWrite |
| src/tcp_server/tcp_server.cc:143-147 | a failed `KlDeserializeCmdReqPacket` sets `r` to CONN_CLOSED, and the next statement overwrites `r` with `KlCommandHandle`'s result | a CMD body holding the rate limit and command but no open type and mode | a body that does not deserialise closes the connection and runs nothing | high, not executed | ServerSession.TruncatedCommandStillRuns | ServerSession.TruncatedCommandRefused |
| src/util/kl_tool.cc:76 | the client folds the hashes of the stdin chunks it sends into the same checksum it later compares with the server's output checksum | one byte typed on stdin to a command that prints nothing | the client compares only the checksum of the output it received | high, not executed | KlToolReceive.SharedChecksumRejectsOneByte | KlToolReceive.OutputChecksumAccepted |
| src/instance_info.cc:731-735 | `get_path_free` tests `p` for NULL, then writes through `q` from a `strchr` that can be NULL | a `df` second line that ends right after its fourth field | the code tests `q` and reports failure | medium, not executed | PathSpace.FourFieldLineWritesThroughNull | PathSpace.PathFree |
| src/tcp_server/kl_pcmd.cc:253-264 | `WaitChildToExec` compares the process name in `/proc/<pid>/stat` with the full path of the server binary | the server started by an absolute path, so that the name has no '/' | the comparison uses the kernel's comm name of the binary, the last path component cut to 15 characters | medium, not executed | PCmd.AbsolutePathNeverWaits | PCmd.ForkedChildRecognised |
| src/job.cc:934-1032 | the set of missing libraries is declared before the retry label and never cleared, so libraries from an earlier run count again | a first install run that reports a missing library, a second that reports none, and a third that fails to launch: the install answers "BiodirectPopen error" | each retry looks only at the libraries the latest run reports, so the install stops after the second run | high, not executed | Job.StaleLibsReachFailedRun | Job.FreshLibsInstall |
| src/job.cc:344-356 | the copy command changes to the literal directory name `program_path`, not to the lib directory held in the variable of that name | any library name and two different lib directories | the copy runs in the lib directory | medium, not executed | Job.AddLibIgnoresLibDir | Job.AddLibUsesLibDir |
| src/job.cc:851-854 | a computer "stop" calls `remove_storage_instance`, which never searches the computer list | stopping a registered computer instance | a computer stop calls `remove_computer_instance` | high, not executed | Job.ComputerStopKeepsComputer | Job.ComputerStopUnregisters |
| src/job.cc:830-860 | for a control other than stop, start or restart, the uninitialised `ret` decides the answer | control "pause" on a storage instance | an unknown control is refused | high, not executed | Job.UnknownControlReadsStale | Job.ControlInstance |
| src/job.cc:793-796 | after the blanks that follow "LISTEN" the code tests `p` where it meant the result of `strchr(q, '/')`, so a program column "-" leaves the pid undefined | a LISTEN line whose program column is "-" | no '/' gives an empty pid | medium, not executed | Job.DashProgramUndefined | Job.NetstatPidOfLine |
| src/util/safe_killmysql.cc:35-37 | after each NUL separator the tokenizer steps over the next byte without examining it, so an empty argument hides the one after it | the command line "a", "", "c" | every NUL-separated argument is a token | high, not executed | SafeKill.EmptyArgumentHidesNext | SafeKill.CmdArgsOfCmdLine |
| src/util_func/file_traverse.h:89-97 | when `opendir` of a subdirectory fails, the walk returns without lowering the level it raised | a `/proc/<pid>` that vanishes during the walk, followed by a matching process | the level is restored, so later directories are still entered | medium, not executed | SafeKill.GoneProcessHidesLaterOnes | SafeKill.CorrectedScanIsProcs |
| test/http_post_para.cc:205 | the body is copied as Content-Length bytes from the receive buffer, past the received data and into the request text still in that buffer | a reply whose body is shorter than its Content-Length | the body is at most the bytes actually received | high, not executed | HttpClient.ShortBodyReadsRequest | HttpClient.PostPara |
| test/http_post_file.cc:221-228 | the multipart head is written after the HTTP head with the full buffer size as the limit, so a long parameter writes past the buffer before the length check | a post parameter long enough that head and part head exceed 2048 bytes | the second write is limited to the space left, and the post is refused with -2 | high, not executed | HttpClient.LongParameterOverflows | HttpClient.PostFile |
| test/http_post_para.py:26-37 | `r.content` (bytes) is compared with `back` (a str); under Python 3 they are never equal | a server that echoes `back` exactly with status 200 | the reply text is compared with `back` | high, not executed | HttpLoad.AsWrittenPassesOnlyOnSocketError | HttpLoad.EchoPasses |

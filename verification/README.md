# Verified model of tinch++

tinch++ is a C++ library that makes a program a distributed Erlang node. This project models, in
Dafny, the parts of it where a mistake would lose, duplicate, reorder or misread something:

* the external term codec and the pattern matcher that parses and compares in one pass
  (`Terms`, `LeafCodec`, `TermCodec`, `Matching`, `Matchers`, `BitStrings`);
* the message lexer that rebuilds frames from an arbitrarily cut stream (`Lexer`), and the write queue
  (`WriteQueue`);
* the distribution handshake: five frames (`HandshakeFrames`), the states of one end on values
  (`Endpoint`) and as the connection object (`Connection`), and two ends with two byte channels as one
  transition system (`HandshakeSystem`, `HandshakeSteps`, `HandshakeTheorems`, `HandshakeSignals`,
  `HandshakeProgress`, `HandOverAtA`, `StrandingRun`);
* control messages, built and dispatched (`ControlMessages`, `Dispatching`), and the way of an operation from the
  application of one node to the dispatcher of the other, in both directions (`EndToEnd`);
* streaming MD5 (`Md5`), links (`Linker`), the node's exit fan-out (`Node`), mailboxes (`Mailbox`) and
  pid allocation (`Pids`).

`ByteCodec` and `Parsing` hold big-endian words and the primitive parsers; `WireFormat` states every format
in numerals, byte by byte. An object whose methods
update its fields is a class whose methods are proved equal to functions on values; what the library
promises is proved about those functions, over every input or over every run. Asynchronous callbacks
and sections under a lock are atomic steps. The socket, the clock, the network and the other threads
are the free choices of a run.

Where the code does not do what a reader expects, the model follows the code, and a lemma says exactly
when the expectation holds:

* a string used as a value pattern rejects its own encoding (`StringValueAcceptsItself`);
* the wildcard leaves a list's nil unread (`AnyTakesWholeTermExactlyWhenListFree`);
* `4 + size` is computed in 32 bits, so one length word makes the lexer recurse for ever
  (`RecursionEndsExactlyWhen`, `WrapsToZeroExactlyWhen`);
* the version byte 131 is compared as a plain `char` (`DispatchUndoesBuild`);
* bytes that B sends right after its acknowledgement stay behind in A's handshake lexer, for good, when
  they are read together with it (`StrandedAtA`, `StrandedForGood`, `MessageIsStranded`);
* a mailbox is last in, first out (`LastInFirstOut`); a receiver can wait with a broken link pending
  (`OverlookedInRunsExactlyWhen`), and a blocked one with a message queued
  (`SleptThroughInRunsExactlyWhen`);
* closing a mailbox throws half-way when a linked process cannot be told (`CloseSucceedsExactlyWhen`,
  `CloseThatThrows`, `SecondCloseTellsNobody`);
* the order on pids is an order only while all serials are 0 (`StrictTotalOrderExactlyWhen`).

Standards named in the comments: the chapters "External Term Format" and "Distribution Protocol" of the
ERTS User's Guide, and RFC 1321.

## Model

| member | source | states |
|---|---|---|
| `ByteCodec.Be32RoundTrip` | impl/ext_term_grammar.h:93-119 | a four-byte word reads back as the number modulo 2^32 |
| `ByteCodec.FromBe32RoundTrip` | impl/ext_term_grammar.h:93-119 | every four bytes are the word they are read as |
| `LeafCodec.LeafGrammarIsExact` | impl/ext_term_grammar.h:61-392 | a leaf grammar reads leaf l and leaves s if and only if the bytes are l's encoding (or the long form of a small integer) followed by s, and l fits the format; the encodings are given in numerals by the layouts below |
| `LeafCodec.LeafOn` | impl/erlang_value_types.cpp:82-88 | every leaf that fits is read back from its encoding, with exactly the suffix left |
| `LeafCodec.LeafLocal` | impl/ext_term_grammar.h:61-392 | a leaf grammar looks only at the bytes it consumes |
| `WireFormat.IntLayout` | impl/ext_term_grammar.h:62-119 | 97 and one byte, or 98 and four bytes of two's complement, high-order first |
| `WireFormat.AtomLayout` | impl/ext_term_grammar.h:160-191 | 100, two bytes of length, the name |
| `WireFormat.PidLayout` | impl/ext_term_grammar.h:193-217 | 103, the node as an atom, id and serial in four bytes each, one byte of creation |
| `WireFormat.RefLayout` | impl/ext_term_grammar.h:219-252 | 114, the number of id words in two bytes, the node as an atom, creation, the id |
| `WireFormat.BinLayout` | impl/ext_term_grammar.h:328-392 | 109, four bytes of length, the bytes; with unused bits 77, the length, their number, the bytes |
| `WireFormat.StrLayout` | impl/ext_term_grammar.h:304-326 | 107, two bytes of length, the characters |
| `WireFormat.FloatLayout` | impl/ext_term_grammar.h:136-158 | 99 and 31 bytes of text |
| `WireFormat.TupleLayout` | impl/ext_term_grammar.h:254-276 | 104, one byte of length, the elements in order |
| `WireFormat.ListLayout` | impl/ext_term_grammar.h:278-302 | 108, four bytes of length, the elements in order, 106 |
| `TermCodec.DecodeEncoded` | tinch_pp/erl_list.h:56-65 | nested tuples and lists survive serialisation with any suffix |
| `TermCodec.RoundTripExactlyWhenFits` | impl/ext_term_grammar.h:61-392 | a term survives the trip if and only if every field fits the width the format gives it |
| `TermCodec.EncodingIsPrefixFree` | impl/ext_term_grammar.h:61-392 | encodings are injective and prefix-free |
| `TermCodec.DecodeLocal` | impl/ext_term_grammar.h:61-392 | decoding looks only at the bytes it consumes |
| `TermCodec.TermGrammarIsExact` | impl/ext_term_grammar.h:61-392 | for every term and every byte sequence: the decoder reads t and leaves s if and only if t fits and the bytes are a layout of t (its encoding, small integers also in the long form) followed by s |
| `TermCodec.DecodersAgree` | impl/list_matcher.h:80-100 | the decoder that demands a nil after every list and the one that leaves it unread agree whenever either yields a term without lists |
| `TermCodec.AnyReadIsDecode` | impl/erl_any.cpp:46-113 | the wildcard succeeds and stops exactly where a decoder that leaves list nils unread does |
| `TermCodec.AnyReadEncoded` | impl/erl_any.cpp:52-78 | what the wildcard does on the encoding of every term, lists included: how many nils it leaves, or that it fails |
| `TermCodec.AnyTakesWholeTermExactlyWhenListFree` | impl/erl_any.cpp:65-78 | the wildcard consumes exactly one whole encoding if and only if the term has no list |
| `Matchers.AnyMatcher.Match` | impl/erl_any.cpp:123-129 | terminates; on success the saved bytes are exactly the bytes moved over, and they are handed to the client |
| `Matchers.AnyMatcher.MatchDynamically` | impl/erl_any.cpp:98-113 | dispatch on the tag byte; success and stopping place are those of the wildcard's reading |
| `Matchers.AnyMatcher.MatchElements` | impl/erl_any.cpp:52-78 | the element loops of the tuple and list arms save head and elements in order |
| `Matchers.AnyMatcher.MatchLeaf` | impl/erlang_value_types.cpp:54-60 | a leaf arm saves what its grammar consumed |
| `Matchers.PushLeaves` | impl/list_matcher.h:80-100 | the push loop yields the parsed elements in order and stops where their grammar does |
| `Matchers.AssignMatchList` | impl/list_matcher.h:80-100 | head, elements and the demanded nil, all or nothing |
| `Matchers.AssignMatchString` | impl/string_matcher.h:53-71 | the packed bytes are pushed one by one; succeeds if and only if all of them are there |
| `Matching.MatchIsDecodeThenCompare` | tinch_pp/erl_tuple.h:60-69 | for every list-free, string-value-free pattern and every byte sequence, the fused match is decoding (list nils left unread, as the wildcard does) followed by structural comparison: same verdict, same stopping place, same subterms bound |
| `Matching.MatchIsClosedDecodeThenCompare` | tinch_pp/erl_tuple.h:60-69 | the same against the decoder that demands every nil: for every byte sequence when the pattern has no `any`, and for every such pattern when no list is involved |
| `Matching.MatchLocal` | tinch_pp/erl_tuple.h:60-69 | such a pattern looks only at the bytes it consumes: whatever follows them, it binds the same values and stops at the same place |
| `Matching.RematchingSavedBytes` | impl/erl_any.cpp:123-136 | bytes a wildcard saved match every such pattern exactly as the original position does: same verdict, same values bound, nothing left over |
| `Matching.MatchEncoded` | tinch_pp/erl_tuple.h:60-69 | on the encoding of a list-free term, matching is comparing the term with the pattern |
| `Matching.SkeletonRecoversLeaves` | tinch_pp/erl_tuple.h:50-69 | serialising any nested term and matching with a variable at every leaf recovers every leaf and leaves exactly the suffix |
| `Matching.ListPatternIsDecodeThenCompare` | impl/list_matcher.h:58-78 | a list of such patterns, on every byte sequence: it matches if and only if the head announces its own length and that many terms follow which the patterns accept; same subterms bound, and the nil taken when it is there |
| `Matching.ListPatternOnEncoded` | impl/list_matcher.h:58-78 | on the encoding of a list it matches if and only if the lengths are equal and every element is accepted, and leaves exactly the suffix |
| `Matching.ListBindExactlyWhen` | impl/list_matcher.h:80-100 | a list variable of any kind binds the elements of an encoded list, in order, if and only if all are leaves of its kind and the closing nil is there |
| `Matching.NilIsOptional` | impl/list_matcher.h:58-78 | a list pattern accepts a list without its closing nil, and takes the nil when it is there |
| `Matching.StringValueAcceptsItself` | impl/string_matcher.h:38-51 | a string value accepts its own encoding if and only if every character is misread as negative |
| `Matching.StringValueExactlyWhen` | impl/string_matcher.h:38-51 | on every byte sequence: a string value matches if and only if the head announces its length and no byte that is there equals the character at its place |
| `Matching.StringValueRejectsItself` | impl/string_matcher.h:38-51 | a concrete string that rejects its own encoding |
| `Matching.PackedListBindsTheSame` | tinch_pp/erl_list.h:141-158 | a list of small integers binds to the same values packed as a string or not |
| `BitStrings.MakeBitString` | impl/types.cpp:59-73 | throws exactly for a bad padding; keeps the used bits and clears the others |
| `BitStrings.PowersOfTwo` | impl/types.cpp:70-72 | the weights of the cleared bits, in numerals |
| `BitStrings.EqualExactlyWhenSameBits` | impl/types.cpp:75-79 | constructed bit-strings are equal if and only if their paddings and their used bits are |
| `Lexer.MsgLexer.Add` | impl/utils.cpp:130-140 | leaves the leftover of the joined bytes and queues every message they complete, in order |
| `Lexer.MsgLexer.NextMessage` | impl/utils.cpp:147-157 | hands out the oldest message, or none |
| `Lexer.MsgLexer.HandleNewCondition` | impl/utils.cpp:159-179 | the recursion extracts all complete messages |
| `Lexer.LexConserves` | impl/utils.cpp:159-196 | messages followed by leftover are the input, byte for byte |
| `Lexer.LeftoverIsPartial` | impl/utils.cpp:159-179 | the leftover holds no complete frame |
| `Lexer.LexSplit` | impl/utils.cpp:130-140 | lexing in two pieces gives what lexing the whole gives |
| `Lexer.ChunkingIsIrrelevant` | impl/utils.cpp:130-179 | every way of cutting a stream gives the messages and leftover of the uncut stream |
| `Lexer.LexFrames` | impl/utils.cpp:159-179 | a stream of frames lexes into exactly those frames |
| `Lexer.LexPartial` | impl/utils.cpp:159-179 | an unfinished frame stays in the lexer |
| `Lexer.RecursionEndsExactlyWhen` | impl/utils.cpp:159-179 | the recursion ends if and only if no message's header plus length wraps to 0 |
| `Lexer.WrapsToZeroExactlyWhen` | impl/utils.cpp:201-228 | only the connected lexer's length word 0xFFFFFFFC wraps to 0 |
| `WireFormat.LengthFields` | impl/utils.cpp:201-228 | two bytes of length plus 2, or four bytes of length plus 4 modulo 2^32, high-order byte first |
| `WriteQueue.AsyncTcpIp.TriggerWrite` | impl/node_async_tcp_ip.cpp:61-73 | the entry is queued, and written at once only when nothing is in flight |
| `WriteQueue.AsyncTcpIp.CheckedWrite` | impl/node_async_tcp_ip.cpp:95-117 | the head is done, the next one is handed over, and its callback is returned to run last |
| `WriteQueue.EveryRunIsSerial` | impl/node_async_tcp_ip.cpp:61-117 | in every run one write is in flight if and only if the queue is non-empty, it is the head, the wire holds the messages in enqueue order, and each callback fires once in that order |
| `HandshakeFrames.NameOn` | impl/handshake_grammar.h:74-103 | every name frame reads back with a supported version (an empty name does not), and it is one frame if and only if its length fits 16 bits |
| `HandshakeFrames.StatusOn` | impl/handshake_grammar.h:123-150 | every non-empty status reads back, and its frame is one frame if and only if its length fits |
| `HandshakeFrames.ChallengeOn` | impl/handshake_grammar.h:196-228 | every challenge reads back unless the name is empty, and its frame is one frame if and only if its length fits |
| `HandshakeFrames.ReplyOn` | impl/handshake_grammar.h:255-288 | the reply frame is one frame and yields challenge and digest |
| `HandshakeFrames.AckOn` | impl/handshake_grammar.h:291-320 | the acknowledgement frame is one frame and yields the digest |
| `WireFormat.NameLayout` | impl/handshake_grammar.h:74-90 | length, 110, version 0 5, capabilities 0 0 5 4, the name |
| `WireFormat.StatusLayout` | impl/handshake_grammar.h:135-150 | length, 115, the status |
| `WireFormat.ChallengeLayout` | impl/handshake_grammar.h:208-228 | length, 110, version 0 5, capabilities 0 0 5 4, the challenge, the name |
| `WireFormat.ReplyLayout` | impl/handshake_grammar.h:270-286 | 0 21 114, the challenge, the digest |
| `WireFormat.AckLayout` | impl/handshake_grammar.h:306-320 | 0 17 97, the digest |
| `WireFormat.StatusTexts` | impl/node_connection_state.cpp:313-325 | the status texts are "ok" and "ok_simultaneous", and the tick is four zeros |
| `WireFormat.NameReadBack` | impl/handshake_grammar.h:92-103 | which byte sequences are read as a name, and what is read, byte by byte |
| `WireFormat.StatusReadBack` | impl/handshake_grammar.h:123-133 | the same for the status |
| `WireFormat.ChallengeReadBack` | impl/handshake_grammar.h:196-206 | the same for the challenge |
| `WireFormat.ReplyReadBack` | impl/handshake_grammar.h:255-268 | the same for the reply; its length field must be 21 |
| `WireFormat.AckReadBack` | impl/handshake_grammar.h:291-304 | the same for the acknowledgement; its length field must be 17 |
| `WireFormat.GreetsExactlyWhen` | impl/node_connection_state.cpp:401-427 | on every message: B greets if and only if the name is readable, its version is at most 5 and its second word, read as signed, at least 5; otherwise it reports a failure, or nothing for an unreadable name |
| `WireFormat.GoesOnExactlyWhen` | impl/node_connection_state.cpp:304-325 | on every message: A goes on if and only if the status is "ok" or "ok_simultaneous" |
| `WireFormat.RepliesExactlyWhen` | impl/node_connection_state.cpp:216-290 | on every message: A replies if and only if the challenge is readable, with its own challenge and the digest of the one it got |
| `WireFormat.AcknowledgesExactlyWhen` | impl/node_connection_state.cpp:189-262 | on every message: B acknowledges a readable reply with the right digest, reports a failure for one with another digest, and does nothing on an unreadable one |
| `WireFormat.ConnectsExactlyWhen` | impl/node_connection_state.cpp:136-175 | on every message: A connects if and only if the acknowledgement is readable and its digest right |
| `Connection.NodeConnection.constructor` | impl/node_connection.cpp:69-91 | a fresh connection feeds the handshake lexer |
| `Connection.NodeConnection.StartHandshakeAsA` | impl/node_connection.cpp:103-109 | the name frame is on its way |
| `Connection.NodeConnection.StartHandshakeAsB` | impl/node_connection.cpp:112-118 | the first read is outstanding |
| `Connection.NodeConnection.NameRead` | impl/node_connection_state.cpp:401-421 | peer name, status and challenge, or a reported failure |
| `Connection.NodeConnection.StatusRead` | impl/node_connection_state.cpp:304-325 | a challenge already queued is taken at once, otherwise a read is started |
| `Connection.NodeConnection.ChallengeRead` | impl/node_connection_state.cpp:283-290 | the reply carries own challenge and digest |
| `Connection.NodeConnection.ReplyReceived` | impl/node_connection_state.cpp:243-262 | the acknowledgement is written only for the right digest |
| `Connection.NodeConnection.ChallengeAckRead` | impl/node_connection_state.cpp:154-175 | connected only for the right digest |
| `Connection.NodeConnection.MakeTransitionToConnected` | impl/node_connection_state.cpp:136-141 | the receiving lexer is switched before the first read of the connection |
| `Connection.NodeConnection.MsgReceived` | impl/node_connection_state.cpp:98-130 | one message per read; a tick is answered, everything else goes to the dispatcher, and the next read is started |
| `Connection.NodeConnection.Send` | impl/node_connection_state.cpp:61-89 | a request is written on an established connection and dropped before |
| `Connection.NodeConnection.CheckedRead` | impl/node_async_tcp_ip.cpp:75-93 | the lexer is fed; the callback runs only with a complete message queued, so it never takes from an empty queue |
| `Connection.NodeConnection.CheckedWrite` | impl/node_async_tcp_ip.cpp:95-117 | the queue moves on, then the finished entry's callback changes state |
| `HandshakeSteps.ActionKeepsInvariant` | impl/node_connection_state.cpp:136-425 | every socket transfer, completion, read and request keeps the invariant of the composed protocol |
| `HandshakeSteps.EveryRunKeepsInvariant` | impl/node_connection_state.cpp:136-425 | the invariant holds in every reachable state, under any fragmentation and interleaving |
| `HandshakeTheorems.Agreement` | impl/node_connection_state.cpp:154-262 | in every run B accepts only a digest equal to its own, and A is connected only after B accepted and handed its whole acknowledgement over |
| `HandshakeTheorems.AcceptedMeansSameCookie` | impl/utils.cpp:108-121 | unless the hash collides on the two texts compared, an accepting B has A's cookie |
| `HandshakeTheorems.HandOverAtB` | impl/node_connection.cpp:125-131 | when B switches lexers the handshake lexer is empty and everything A sent is still on its way |
| `HandshakeTheorems.OnlyTheAckConnectsB` | impl/node_connection_state.cpp:198-201 | B becomes connected only by completing its acknowledgement |
| `HandshakeTheorems.NothingSentToBIsLost` | impl/node_connection.cpp:125-131 | once B accepts, A's stream is what B handled, has queued, or will still get, byte for byte |
| `HandOverAtA.StrandedAtA` | impl/node_connection_state.cpp:154-167 | in every run a read connects A if and only if the digests agree and it reaches the end of the acknowledgement, and the switch is clean if and only if it ends there; the bytes read beyond it are in the handshake lexer |
| `HandOverAtA.OnlyTheAckConnectsA` | impl/node_connection_state.cpp:154-167 | nothing but such a read connects A |
| `HandOverAtA.StrandedForGood` | impl/node_connection.cpp:125-131 | however a run goes on, the handshake lexer of a connected A never changes |
| `HandOverAtA.StreamOfB` | impl/node_connection.cpp:125-131 | in every run B's stream is what was left behind at A's switch, then what A handled, has queued, or will still get, byte for byte |
| `StrandingRun.MessageIsStranded` | impl/node_connection_state.cpp:154-167 | a run, for every short setup and message, that leaves B's first message behind at A although both ends are connected; no continuation brings it to A's connection |
| `StrandingRun.SomeSetupIsShort` | impl/node_connection.cpp:103-118 | there is such a setup |
| `HandshakeSignals.EveryRunSignalsRight` | impl/node_connection.cpp:125-138 | in every run success is signalled exactly by connected ends, failure exactly by a B that refused a digest, and an accepting B knows A's name |
| `HandshakeProgress.SameCookieCanSucceed` | impl/node_connection_state.cpp:154-262 | equal cookies and non-empty names meet the condition for progress |
| `HandshakeProgress.ActionSpendsBudget` | impl/node_connection_state.cpp:265-366 | every handshake action decreases a measure and no other action changes it |
| `HandshakeProgress.SomeHandshakeActionIsPossible` | impl/node_connection_state.cpp:265-366 | no reachable state before both ends are connected is stuck |
| `HandshakeProgress.RunSpendsBudget` | impl/node_connection_state.cpp:265-366 | handshake actions so far plus the measure left never exceed the initial measure |
| `HandshakeProgress.HandshakeCompletes` | impl/node_connection_state.cpp:265-366 | every run holds at most a fixed number of handshake actions, and until both ends are connected another one is possible |
| `HandshakeProgress.ConnectedOnlyIfItCanSucceed` | impl/node_connection_state.cpp:154-262 | the condition for progress is exact: two connected ends have names and agreeing digests |
| `ControlMessages.Build` | impl/ext_message_builder.cpp:59-189 | four bytes of size, the pass-through and version bytes, the control tuple, and for sends a version byte and the payload |
| `ControlMessages.SerializeTuple` | tinch_pp/erl_tuple.h:50-58 | the head and every element, in order |
| `ControlMessages.OtherHandlersFail` | impl/ctrl_msg_dispatcher.cpp:108-264 | every handler but one fails on an operation's control tuple |
| `ControlMessages.RightHandlerMatches` | impl/ctrl_msg_dispatcher.cpp:108-264 | the right handler's variables hold the operation's arguments, and the payload is left |
| `ControlMessages.AnyChainHandles` | impl/ctrl_msg_dispatcher.cpp:73-91 | wherever its handler stands in a chain, an operation is handled once with its own arguments and payload |
| `ControlMessages.ChainHandlesFitting` | impl/ctrl_msg_dispatcher.cpp:73-91 | whatever bytes arrive, the arguments of a handled operation fit the format |
| `ControlMessages.DispatchUndoesBuild` | impl/ctrl_msg_dispatcher.cpp:36-60 | dispatching a built message yields the operation if and only if `char` is unsigned and every argument fits; with a signed `char` it is always rejected |
| `ControlMessages.BuiltIsInjective` | impl/ext_message_builder.cpp:59-189 | different operations build different messages |
| `ControlMessages.BuiltIsFrame` | impl/ext_message_builder.cpp:148-154 | a built message frames itself if and only if its size fits 32 bits, and it is never the tick |
| `WireFormat.ControlTuples` | impl/constants.cpp:40-48 | the six control tuples in numerals |
| `WireFormat.MessageLayout` | impl/ext_message_builder.cpp:93-189 | size, 112, 131, the control tuple, and for sends 131 and the payload |
| `WireFormat.HeaderExactly` | impl/ctrl_msg_dispatcher.cpp:36-60 | which headers are accepted, rejected, or read past their end |
| `Dispatching.HandlerMatches` | impl/ctrl_msg_dispatcher.cpp:108-264 | on every byte sequence: a handler matches if and only if the bytes decode to a tuple with its code and arguments of its kinds, and its variables hold them |
| `Dispatching.ChainIsUnderstood` | impl/ctrl_msg_dispatcher.cpp:73-91 | for every chain and every byte sequence: matching handler after handler is decoding the tuple once and looking at it |
| `Dispatching.DispatchIsDecodeThenLook` | impl/ctrl_msg_dispatcher.cpp:280-290 | on every message the dispatcher does what the decoded control tuple stands for, and rejects everything else |
| `EndToEnd.LexPrefix` | impl/utils.cpp:130-196 | the first bytes of a stream of frames lex into exactly the frames that have arrived whole |
| `EndToEnd.SentIsAsked` | impl/node_connection_state.cpp:61-124 | what a side's connection carries are the built operations asked for there while connected and the answers to ticks, in order |
| `EndToEnd.EveryRunLexesWhole` | impl/utils.cpp:130-196 | in every run the messages and the leftover at either end are those of the uncut stream |
| `EndToEnd.OperationsArriveInOrder` | impl/node_connection_state.cpp:98-130 | in every run the operations dispatched at B, followed by those decoded from its lexer queue, are the operations asked for at A whose frames have arrived whole, in order |
| `EndToEnd.NothingIsLost` | impl/node_async_tcp_ip.cpp:61-117 | with nothing left to send or read, everything asked for has been dispatched or is queued |
| `EndToEnd.NextReadEnds` | impl/utils.cpp:159-179 | on such runs the lexer's recursion always ends |
| `EndToEnd.ConnectionOfAReads` | impl/node_connection_state.cpp:136-141 | in every run A's connected lexer reads B's stream from where the bytes left behind at the switch end, in the middle of a frame or not |
| `EndToEnd.OperationsArriveAtA` | impl/node_connection_state.cpp:98-130 | when the bytes left behind are B's first m messages, the operations dispatched and queued at A are those asked for at B after them, whole frames only, in order; the first m are lost |
| `EndToEnd.CleanSwitchLosesNothing` | impl/node_connection_state.cpp:98-130 | after a clean switch the operations dispatched and queued at A are those asked for at B whose frames have arrived whole |
| `Md5.Md5State.constructor` | impl/md5.cpp:312-320 | an empty message |
| `Md5.Md5State.UpdateCount` | impl/md5.cpp:333-337 | two words with carry hold the bit length modulo 2^64 |
| `Md5.Md5State.ProcessBlocks` | impl/md5.cpp:352-353 | the loop absorbs all full blocks and leaves the tail |
| `Md5.Md5State.Append` | impl/md5.cpp:322-358 | whatever the calls, the chaining value is the fold over the full blocks of the whole message, the buffer starts with its tail, and the count is its length |
| `Md5.Md5State.Finish` | impl/md5.cpp:360-381 | the digest is the hash of the message: the fold over the padded message from the initial words, written low-order byte first; the padding and the output are given byte by byte below |
| `Md5.PaddedBytes` | impl/md5.cpp:363-377 | the padded message is the message, 128, zeros, and in the last eight bytes its length in bits modulo 2^64, low-order byte first (sections 3.1 and 3.2 of RFC 1321) |
| `Md5.DigestBytes` | impl/md5.cpp:378-380 | every four bytes of the digest are one chaining word, in order, low-order byte first (section 3.5 of RFC 1321) |
| `Md5.InitialWords` | impl/md5.cpp:312-320 | the four initial words |
| `Md5.AbsorbIsFold` | impl/md5.cpp:352-353 | absorbing is folding the block function over the blocks, first block first, and a shorter tail does not matter |
| `Md5.CountsTogether` | impl/md5.cpp:333-337 | the two count words together hold the bit length modulo 2^64 |
| `Md5.WriteWords` | impl/md5.cpp:371-380 | words are written low-order byte first |
| `Md5.Le32RoundTrip` | impl/md5.cpp:371-380 | written words read back low-order byte first |
| `Md5.AbsorbAppend` | impl/md5.cpp:339-357 | appending keeps the full blocks absorbed and joins the tail with the new bytes |
| `Md5.CountAdds` | impl/md5.cpp:333-337 | adding word by word with carry is addition modulo 2^64 |
| `Md5.PaddingIsMinimal` | impl/md5.cpp:374-375 | the padding is the least that reaches 56 modulo 64, and the padded message ends on a block boundary |
| `Md5.OffsetFromCount` | impl/md5.cpp:327-328 | the buffer offset read off the low count word is the length modulo 64 |
| `Md5.CalculateDigest` | impl/utils.cpp:108-121 | the digest of a challenge is the hash of the cookie followed by the challenge as text; of a text of 2^31 bytes or more only the part whose size survives the cut to `int` is hashed |
| `Endpoint.DecimalIsText` | impl/utils.cpp:113-114 | the challenge as text: decimal digits, most significant first, no leading zero |
| `Linker.Linker.Link` | impl/linker.cpp:45-52 | an older link between the two goes, in either direction, and the new one is last |
| `Linker.Linker.Unlink` | impl/linker.cpp:54-59 | the link goes, in either direction |
| `Linker.Linker.RemoveLinksFrom` | impl/linker.cpp:108-127 | returns the partners in order and keeps the order of the other links |
| `Linker.PartnersExactlyOnce` | impl/linker.cpp:108-127 | every process linked to the dying one is returned, exactly once, and no other |
| `Linker.OrderIsKept` | impl/linker.cpp:108-127 | the partners and the links that stay come in the order of the list |
| `Linker.OneLink` | impl/linker.cpp:108-127 | what becomes of a single link, and who is its partner |
| `Linker.NewLinkIsLast` | impl/linker.cpp:45-91 | a new link comes last, after the links with other pairs in their order; a pair goes in either direction and nothing else does |
| `Linker.LinkRefines` | impl/linker.cpp:45-52 | linking adds one unordered pair to the relation |
| `Linker.UnlinkRefines` | impl/linker.cpp:54-59 | unlinking removes one unordered pair |
| `Linker.BreakRefines` | impl/linker.cpp:93-127 | breaking removes exactly the pairs with the dying process |
| `Linker.EveryRunRefines` | impl/linker.cpp:45-127 | over every run the list never holds a pair twice or with its mirror, and stands for exactly the set of unordered pairs |
| `Node.ActualNode.LinkTo` | impl/link_policies.cpp:36-82 | local: a link; remote: a request, then the link |
| `Node.ActualNode.UnlinkFrom` | impl/link_policies.cpp:84-90 | the link goes even when the request throws |
| `Node.ActualNode.TakeExit` | impl/actual_node.cpp:272-288 | a known mailbox gets a broken-link record and the link goes; an unknown one throws |
| `Node.ActualNode.SendExit2` | impl/actual_node.cpp:302-310 | local partners are told directly, remote ones by a request |
| `Node.ActualNode.OnBrokenLinks` | impl/linker.cpp:93-106 | the links go first, then every partner is told in turn until one throws |
| `Node.ActualNode.Close` | impl/actual_node.cpp:183-194 | the mailbox is removed only after every partner was told |
| `Node.ActualNode.PerformOp` | impl/node_connection.cpp:158-186 | a dispatched operation delivers by pid or by name, links, unlinks, or takes an exit; an unknown mailbox throws and changes nothing |
| `Node.ActualNode.TakeMessage` | impl/actual_node.cpp:246-252 | delivers to a known mailbox, as described by `SendDelivers`; an unknown one throws and nothing changes |
| `Node.SendDelivers` | impl/actual_node.cpp:246-252 | a message to a pid is delivered if and only if the mailbox is known: in front of its queue, with the receiver signalled; every other mailbox, the links, the names and the requests are kept |
| `Node.RegSendDelivers` | impl/actual_node.cpp:254-260 | a message to a name is delivered if and only if the name is registered for a known mailbox, as if sent to its pid |
| `Node.DeliveredMessageIsReceived` | impl/node_connection.cpp:158-166 | in every run of a node, a built message for a known mailbox with no broken link pending is dispatched and delivered, and the receiver that enters next gets exactly its payload |
| `Node.CreateAdds` | impl/actual_node.cpp:139-165 | a new mailbox is empty and gets its name unless that is taken; nothing that is there changes |
| `Node.LinkIsEntered` | impl/link_policies.cpp:36-82 | the pair enters the relation if and only if the other process is local or its node can be asked, which it is once, with the pids in that order |
| `Node.LinkIsRemoved` | impl/link_policies.cpp:84-90 | the pair leaves the relation in any case, and the other node is asked when it can be |
| `Node.LinkOperationsArePerformed` | impl/actual_node.cpp:262-288 | at the other node a link enters and an unlink leaves the relation; an exit of either kind records reason and sender in a known mailbox and removes the pair |
| `Node.ReentrantUnlinkChangesNothing` | impl/actual_node.cpp:272-281 | the unlink inside an exit finds nothing to remove |
| `Node.CloseSucceedsExactlyWhen` | impl/actual_node.cpp:183-194 | closing succeeds if and only if every linked local process is a known mailbox and every linked remote one is on a reachable node |
| `Node.ExitFanOut` | impl/actual_node.cpp:183-221 | each linked local mailbox gets exactly one record and each linked remote process one EXIT2, with the right reason and sender; no link mentions the closed process, every other link and mailbox is kept |
| `Node.RequestsExactlyOnce` | impl/link_policies.cpp:99-104 | one request for each remote partner and for no one else |
| `Node.RemotePartnerHears` | impl/actual_node.cpp:272-310 | the EXIT2 asked for at the closing node, built and dispatched at the other, gives the linked mailbox its broken-link record and removes exactly that link there |
| `Node.CloseThatThrows` | impl/actual_node.cpp:183-194 | the links are gone and the partners before the failing one told, but the mailbox is still registered |
| `Node.SecondCloseTellsNobody` | impl/actual_node.cpp:183-194 | closing again after a close that threw always succeeds and tells no one, so the partners that were not told never hear |
| `Node.UnknownPartnerMakesCloseThrow` | impl/actual_node.cpp:196-199 | a run that gets there: a link to a local process that does not exist |
| `Node.EveryRunKeepsLinksProper` | impl/actual_node.cpp:167-310 | in every run of a node, whatever throws, the links stand for a set of unordered pairs |
| `Mailbox.ActualMailbox.OnIncoming` | impl/actual_mailbox.cpp:170-173 | the message goes to the front and the receiver is signalled |
| `Mailbox.ActualMailbox.OnLinkBroken` | impl/actual_mailbox.cpp:175-180 | the record goes to the back and the receiver is signalled |
| `Mailbox.ActualMailbox.ReceiveTmo` | impl/actual_mailbox.cpp:197-205 | a cancelled timer does nothing, an expired one signals |
| `Mailbox.ExpiredTimerTimesOut` | impl/actual_mailbox.cpp:153-205 | in every run that leaves nothing pending, an expired timer makes the receiver that enters next, or a blocked one, time out; a cancelled timer does not |
| `Mailbox.ArrivalIsReceived` | impl/actual_mailbox.cpp:153-173 | in every run with no link pending, a message that arrives is what a receiver gets next, entering or blocked |
| `Mailbox.BreakIsReported` | impl/actual_mailbox.cpp:175-193 | in every run a broken link wakes the next receiver, which reports the oldest one pending |
| `Mailbox.ActualMailbox.Receive` | impl/actual_mailbox.cpp:119-128 | picks at once when a message is queued or something was signalled, otherwise waits |
| `Mailbox.ActualMailbox.WakeUp` | impl/actual_mailbox.cpp:144-151 | a woken receiver picks only when something was signalled |
| `Mailbox.ActualMailbox.PickFirstMsg` | impl/actual_mailbox.cpp:153-168 | broken link, else time-out on an empty queue, else the front message |
| `Mailbox.EveryRunConserves` | impl/actual_mailbox.cpp:119-215 | over every interleaving, messages that arrived are those returned plus those queued, and broken links are reported oldest first, once each |
| `Mailbox.SignalHasACause` | impl/actual_mailbox.cpp:183-205 | a signal that no timer explains has left a message or a broken link |
| `Mailbox.PickIsRight` | impl/actual_mailbox.cpp:153-168 | every pick: a message only when no broken link is pending, and a time-out only if a timer expired since the previous pick |
| `Mailbox.LastInFirstOut` | impl/actual_mailbox.cpp:163-172 | messages that arrive one after the other are handed out in the opposite order |
| `Mailbox.OverlookedMeansSomeoneWaits` | impl/actual_mailbox.cpp:144-151 | overlooked means that a link is pending while a receiver that enters would wait or a blocked one is not signalled |
| `Mailbox.OverlookedExactlyWhen` | impl/actual_mailbox.cpp:144-158 | a pick leaves a broken link overlooked if and only if it reports one of several while no message is queued or a receiver is blocked |
| `Mailbox.OverlookedInRunsExactlyWhen` | impl/actual_mailbox.cpp:144-158 | in every run some receiver, entering or blocked, waits with a broken link pending if and only if the last pick left one so and nothing was signalled since |
| `Mailbox.SleptThroughExactlyWhen` | impl/actual_mailbox.cpp:144-168 | a pick leaves a message slept through if and only if it does not take the last one and a receiver is blocked |
| `Mailbox.SleptThroughInRunsExactlyWhen` | impl/actual_mailbox.cpp:144-168 | in every run a blocked receiver sleeps with a message queued if and only if the last pick left one so and nothing was signalled since |
| `Mailbox.SignalsEndWaiting` | impl/actual_mailbox.cpp:183-193 | any arrival, broken link or expired timer ends both |
| `Mailbox.SecondBrokenLinkIsOverlooked` | impl/actual_mailbox.cpp:144-158 | a concrete run that ends so |
| `Mailbox.BlockedReceiverOverlooksLink` | impl/actual_mailbox.cpp:144-158 | a concrete run in which a blocked receiver waits with a broken link pending although a message is queued |
| `Mailbox.BlockedReceiverSleepsThroughMessage` | impl/actual_mailbox.cpp:144-168 | a concrete run in which a blocked receiver sleeps with a message queued |
| `Pids.PidMaker.MakePid` | impl/actual_node.cpp:331-338 | the k-th pid is made of the base-0x8000 digits of (k + 1) modulo 2^28 |
| `Pids.PidMaker.UpdatePidFields` | impl/actual_node.cpp:340-354 | counting up by one with both wrap-arounds |
| `Pids.PidsRepeatExactlyWhen` | impl/actual_node.cpp:331-354 | two pids of a node are equal if and only if a multiple of 2^28 lies between them |
| `Pids.ConsecutivePidsDiffer` | impl/actual_node.cpp:331-354 | any 2^28 consecutive pids are distinct |
| `Pids.OrderOfFirstPids` | impl/actual_node.cpp:358-362 | on the first 0x7fff pids the order is the order of creation |
| `Pids.LessBothWaysExactlyWhen` | impl/actual_node.cpp:358-362 | two pids are each less than the other if and only if ids and serials are ordered oppositely |
| `Pids.StrictTotalOrderExactlyWhen` | impl/actual_node.cpp:358-362 | the order is a strict total order on the first n pids if and only if n is at most 0x7fff |

## Left out

- Sockets, the acceptor, the connector's table of connections and the port mapper protocol: I/O. The nodes a connection can be had to are a parameter of the node's operations.
- I/O errors: runs are error-free; a failed read or write ends the connection.
- Object lifetimes: expired weak pointers, destructors and scope guards. Mailboxes of a node are values in a map, so two names for one mailbox object are not modelled.
- Data races: every callback and every section under a lock is one step; distinct destinations are assumed for the variables of a pattern.
- Float terms: the conversion between doubles and text and the comparison within an epsilon. The codec carries the 31-byte text; matching with float values or variables is outside `MatchIsDecodeThenCompare`.
- Integer lists as value patterns against a packed string: they go through the string matcher that rejects equal elements, which is covered for strings.
- The 64 steps of one MD5 block: a function parameter of `Md5`.
- Asserts of the wildcard on a truncated tuple or list head: modelled as a failed match.
- The position a failed match leaves the iterator at: a failed match has no position in the model, and every caller in the dispatcher restores its own copy.
- `std::map` with an order that is not one (see `StrictTotalOrderExactlyWhen`): the mailbox table is modelled as a map.
- Exit of a process with reason "error" (`break_links_for_local`): the same loop as closing, with EXIT in place of EXIT2.
- Simultaneous connection attempts and the handshake statuses other than "ok": B always answers "ok".
- Node names of 65529 bytes and more (65525 for B): they overflow the 16-bit length of their handshake frame, so the theorems about the handshake ask for shorter ones.
- Lexer.MsgLexer.Add: asks that no length word wraps to 0, because the call does not return otherwise; `RecursionEndsExactlyWhen` says exactly when.
- Md5.Md5State.Append: asks that offset plus length stays below 2^31, because the code adds them as `int`.
- ControlMessages.DispatchUndoesBuild: a registered send's sender is part of the recovered operation; the code parses it and hands only name and payload on.
- Exception text, regular-expression splitting of node names, type makers, the rpc wrapper.

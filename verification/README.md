# KeycapRoot: a verified model

KeycapRoot is a C++ support library for game servers. This project models its SRP-6 login,
its ARC4 cipher, its framed RPC over connections, its timer table, its one-time passwords and
the parser behind `keycap_enum`, and proves what each of them is for. `dafny verify
dfyconfig.toml` checks everything.

| file | models |
|---|---|
| `Numbers.dfy`, `Bytes.dfy`, `Decimal.dfy` | powers and residues, Euclid's lemma, bit operations; base-256 encodings; decimal numerals |
| `Srp6Encoding.dfy`, `Srp6Interleave.dfy`, `Srp6.dfy` | `src/libs/network/srp6`: byte encodings, the interleaved hash, client, server and proofs |
| `Srp6Bytes.dfy` | what SRP-6 hashes and computes, written out in bytes and numbers |
| `Keystream.dfy`, `Arc4.dfy` | stream ciphers in general; `src/libs/cryptography/ARC4.cpp` |
| `MemoryStream.dfy`, `Crc32.dfy`, `RegisteredMessage.dfy` | the byte stream, the checksum over arguments, the RPC frame |
| `CrcPolynomial.dfy` | CRC-32 itself, and that it misses no single altered byte |
| `ServiceConnection.dfy`, `ServiceLocator.dfy` | reassembly on the server, the request table on the client |
| `Transmission.dfy`, `Rpc.dfy` | what the client sends over whole runs; both sides together |
| `Schedule.dfy`, `Connection.dfy` | the timer table and the write coroutine as state machines over their atomic steps |
| `Otp.dfy` | HOTP and TOTP |
| `EnumNumbering.dfy`, `EnumText.dfy` | numbering of enumerators; the enum-text parser |

## Conventions

- Code that updates objects is a class with the same fields. Its methods are proved against
  specification functions, and the properties are lemmas about those functions and about whole
  runs. State machines (`Schedule`, `Connection`, `ServiceLocator`) have a step function, a class
  whose methods each take one step, and theorems over all lists of steps.
- SHA-1 and HMAC-SHA-1 are arbitrary functions to 20 bytes, the CRC an arbitrary byte-wise
  checksum, so every theorem holds whatever they compute, unless it asks for a checksum no single
  byte escapes, as CRC-32 is shown to be. `Botan::power_mod` is the residue in
  [0, N) also for negative bases; `BigInt::encode` is minimal big-endian and empty for zero;
  salts, secrets and verifiers are not negative. Memory is little-endian.
- Where the code throws, the model returns a failure value. Where it would read past a buffer
  (`has_remaining` ignores its argument, src/include/keycap/root/network/memory_stream.hpp:300-303)
  the stream operations require enough bytes, while the methods fed from the network and by users
  stop there and answer `Overread`, `Undefined` or `None`, no table being changed.
- No read of a connection hands over more than 1024 bytes (src/libs/network/connection.cpp:92-97);
  theorems that depend on it say so. "Reads as long as possible" are 1024 bytes each but the last.
- `io_service.post`, `connection::send` to a socket and the derived `on_data` are lists of what
  was handed over. Services, io services and callbacks are identities.

## Where the code does not do what it says

- `can_decode` compares the buffered bytes with a length that leaves out its own eight bytes, so a
  frame of 22 + n bytes is decoded from byte 14 + n on, and `decode` takes everything buffered, so
  bytes behind a frame are taken for its payload. Whatever the chunks, reassembly works exactly when
  every frame ends where a chunk ends and is cut cleanly within (`Reassembly`). Every frame has
  a cut that is not clean (`EveryFrameHasABadCut`), and a frame that shares its last chunk
  with more bytes is lost (`CoalescedFramesLost`). Sent alone and read in full reads, a frame of more
  than 1024 bytes is lost exactly when its last read has at most eight bytes (`FullReads`).
- `encode` copies a payload's whole buffer but counts, and checksums, only as many bytes as are
  unread. The receiver is handed the unread rest exactly when nothing had been read
  (`UnreadRestDelivered`).
- `send_to` uses sender 0, also the number of the first request (`AnswerToUpdate`).
- `service_locator::on_data` drops partial frames instead of keeping them (`OnlyWholeAnswersPost`).
  Whatever the chunks, outstanding requests are all answered exactly when each nonempty chunk is one
  whole answer frame (`AnswersInAnyOrder`, `AnswersOnOneConnection`): answers that share a read are
  lost, however short (`CoalescedAnswersLost`). As a read has at most 1024 bytes, no callback is ever
  handed more than 1002 bytes (`PostedPayloadsFit`), and a longer reply never arrives (`AnswerFits`,
  `AnswersFitReads`).
- `cancel_all` says it cancels all callbacks; it cancels none (`CancelAllCancelsNothing`). Those of
  items still waiting are invoked with the aborted error, those of items whose wait was already
  over with the error it ended with (`CancelAllStillInvokes`).
- The enum parser takes the text after `=` for its leading decimal numeral, and skips the entry if
  there is none or it is outside int32. All enumerators are read with C++'s values exactly when every such text is taken for
  its value (`ParsesEveryEnumerator`), as plain decimals are (`ParsesDecimals`) but hexadecimal
  numbers are not (`HexadecimalIsMisread`). Those not skipped get C++'s values exactly when every
  text taken for a number is taken for its value, and every entry without a text that follows a
  skipped one follows one with the value of the last not skipped (`ParsesWithCppNumbering`,
  `AliasesCanFallOutOfStep`).
- Blanks after a final comma become an entry (`BlanksAfterFinalComma`). The macro drops trailing blanks
  when it turns its arguments into a string, so only direct calls of the `impl` functions are
  concerned.
- The comments of `service_locator.hpp` promise a queue for services not yet located. There is none:
  a message is handed to `connection::send` exactly if its service has a live connection at the
  call (`EveryRunSends`, `MessageSentIffUp`), and can then be written exactly if that connection is
  also open (`WrittenIffUpAndOpen`). A request made earlier is never sent, and its callback waits
  until some intact frame happens to carry its number (`RequestFate`, `NoQueue`).
- `connection::send` takes packets on a closed connection too, where nothing is ever written again
  (`ClosedWireStays`, `WrittenIffOpen`, `SentAfterClose`).
- `stop` closes the socket but not the timer the writer sleeps on: on a closed connection the writer
  comes to its end exactly if it was not asleep, or if something more is sent (`ClosedWriterEnds`).

## Model

| member | source | states |
|---|---|---|
| Srp6.PremastersAgree | src/libs/network/srp6/client.cpp:51-62 | for every modulus, generator, secrets, u and x the client's and the server's formula both give g^(b(a+ux)) mod N, also where B - 3g^x is negative |
| Srp6.ServerReaches | src/libs/network/srp6/server.cpp:62-65 | (A v^u)^b is g^(b(a+ux)) modulo N |
| Srp6.UnblindedBase | src/libs/network/srp6/server.cpp:44-47 | subtracting 3v from the blinded value B leaves g^b modulo N, whatever its sign as an integer |
| Srp6.SessionKeysAgree | src/libs/network/srp6/server.cpp:55-76 | with the verifier of (user, pass) and the upper-cased credentials on the client, the server throws exactly when N divides g^a and otherwise returns the client's key, in both compliance modes |
| Srp6.HonestClientAccepted | src/libs/network/srp6/server.cpp:57-58 | for prime N the guard rejects an honest A exactly when N divides g and a > 0; otherwise A is in 1..N-1 and the agreed S is not 0 |
| Srp6.VerifierIgnoresCase | src/libs/network/srp6/utility.cpp:48-62 | credentials of which each byte is the same up to the case of ASCII letters have the same verifier, that of the upper-cased credentials |
| Srp6.UpperIffSame | src/libs/network/srp6/utility.cpp:52-53 | upper-casing makes exactly such byte strings equal |
| Srp6.Handshake | src/test/network/srp6/srp6.cpp:92-114 | running the two objects: equal keys and equal client proofs unless the server throws, which it never does for prime N not dividing g; the server proof is the one over the client's own A |
| Srp6.Client.SessionKey | src/libs/network/srp6/client.cpp:51-73 | the method returns the specified client key for any B and credentials |
| Srp6.Server.SessionKey | src/libs/network/srp6/server.cpp:55-76 | the method returns the specified server key or fails, and stores A only when it does not fail |
| Srp6Bytes.GuardRejects | src/libs/network/srp6/server.cpp:57-58 | for every integer A, the server throws exactly when A is not positive or a multiple of N |
| Srp6Bytes.ServerKeyInBytes | src/libs/network/srp6/server.cpp:62-75 | every other A, honest or not, gives the key of (A v^u)^b mod N, where u hashes A and 3v + g^b mod N in the encodings of the mode |
| Srp6Bytes.AcceptedNeverZero | src/libs/network/srp6/server.cpp:57-65 | for a prime modulus that does not divide the verifier, no accepted A, honest or not, leads to the premaster secret 0 |
| Srp6Bytes.ClientKeyInBytes | src/libs/network/srp6/client.cpp:51-73 | for every B, the client's key is that of (B - 3g^x)^(a + ux) mod N, where u hashes g^a mod N and B |
| Srp6Bytes.EphemeralInNumbers | src/libs/network/srp6/server.cpp:44-47 | B is 3v + g^b modulo N |
| Srp6.Server.Proof | src/libs/network/srp6/server.cpp:78-82 | the proof hashes the stored A, the client proof and the key |
| Srp6.Server.constructor | src/libs/network/srp6/server.cpp:35-48 | B is (3v + g^b mod N) mod N |
| Srp6.Client.constructor | src/libs/network/srp6/client.cpp:26-34 | A is g^a mod N |
| Srp6.GenerateX | src/libs/network/srp6/utility.hpp:102-107 | x is the hash of the salt and the hash of user, colon and password, each re-encoded in the mode |
| Srp6Bytes.PrivateKeyInBytes | src/libs/network/srp6/utility.hpp:102-107 | in bytes: x is the digest of the salt and the re-encoded digest of user, colon and password, big-endian or little-endian |
| Srp6Bytes.SamePrivateKey | src/libs/network/srp6/utility.hpp:102-107 | equal private keys for credentials whose texts differ exhibit two different strings with the same digest |
| Srp6Bytes.PasswordCounts | src/libs/network/srp6/utility.hpp:102-107 | so do equal private keys for one user name and different passwords |
| Srp6Bytes.VerifierInNumbers | src/libs/network/srp6/utility.cpp:48-62 | the verifier is g^x mod N for that x of the upper-cased credentials |
| Srp6Bytes.UpperHasNoLower | src/libs/network/srp6/utility.cpp:52-53 | upper-casing changes letters only in case and leaves no lower-case one |
| Srp6.GenerateVerifier | src/libs/network/srp6/utility.cpp:48-62 | the verifier is g^x for the upper-cased credentials |
| Srp6.Sha1Hash | src/libs/network/srp6/utility.hpp:68-100 | updating with the arguments one by one is one digest of their bytes in order, in the encodings of the mode |
| Srp6.GenerateClientProof | src/libs/network/srp6/utility.cpp:106-127 | the loops and updates compute H(H(N) xor H(g), H(I), s, A, B, K) as in section 3 of RFC 2945, little-endian in both modes |
| Srp6Bytes.ClientProofInBytes | src/libs/network/srp6/utility.cpp:113-126 | in bytes: the proof is the digest of the xor-ed digests of N and g, the digest of I, salt, A, B and the key, all little-endian |
| Srp6Bytes.SameProof | src/libs/network/srp6/utility.cpp:113-126 | two proofs for one N and g are equal exactly when those texts have equal digests |
| Srp6Bytes.KeyCounts | src/libs/network/srp6/utility.cpp:125-125 | and different keys make different texts |
| Srp6Bytes.ServerProofInBytes | src/libs/network/srp6/server.cpp:78-82 | in bytes: the server's proof is the digest of A, the client's proof and the key |
| Srp6Interleave.ShaInterleave | src/libs/network/srp6/utility.hpp:29-66 | the loop returns the 40 interleaved bytes |
| Srp6Interleave.InterleaveFollowsRfc2945 | src/libs/network/srp6/utility.hpp:33-63 | for every S: leading zeros and, for odd length, one more byte are dropped; the partition gives the even- and odd-numbered bytes, which weave back to the input; the output alternates their digests (section 3.1 of RFC 2945) |
| Srp6Interleave.PartitionWeavesBack | src/libs/network/srp6/utility.hpp:45-47 | the two halves of the stable partition have equal length and weave back to the trimmed string |
| Srp6Encoding.DecodeFlipUndoesEncodeFlip | src/libs/network/srp6/utility.cpp:28-46 | decoding an encoded number gives it back |
| Srp6Encoding.EncodeFlipInjective | src/libs/network/srp6/utility.cpp:28-33 | different numbers have different encodings |
| Srp6Encoding.EncodeFlipOfDecodeFlip | src/libs/network/srp6/utility.cpp:28-46 | encoding a decoded string strips exactly its trailing zero bytes |
| Srp6Encoding.EncodeFlipOfDecodeFlipExact | src/libs/network/srp6/utility.cpp:28-46 | so the string comes back exactly when it is empty or does not end in zero |
| Srp6Encoding.ToArrayDenotes | src/libs/network/srp6/utility.cpp:64-104 | `to_array` returns exactly for values below 256^width; both orders then denote the value and mirror each other |
| Arc4.Arc4.constructor | src/libs/cryptography/ARC4.cpp:24-37 | the key schedule, 8-bit index included, yields the textbook schedule with key byte i mod length at round i, for keys of any positive length |
| Arc4.NextKeyIndex | src/libs/cryptography/ARC4.cpp:35-35 | truncating the key index to 8 bits never disturbs a round that reads it |
| Arc4.ScheduleIsPermutation | src/libs/cryptography/ARC4.cpp:29-36 | after every round the block is a permutation of 0..255 |
| Arc4.Arc4.Process | src/libs/cryptography/ARC4.cpp:39-50 | the loop overwrites the data with its keystream image and advances the state by its length |
| Arc4.CryptByTurns | src/libs/cryptography/ARC4.cpp:41-49 | in numbers: x and y advance by 1 and by the entry at x, the entries at x and y are exchanged, and data byte i is xor-ed with the entry at the sum of the two, all modulo 256 |
| Arc4.InitialByRounds | src/libs/cryptography/ARC4.cpp:24-37 | in numbers: round i adds the entry i and key byte i mod length to the running index and exchanges the entries at both, modulo 256, from the identity |
| Arc4.StepIsTurn | src/libs/cryptography/ARC4.cpp:43-47 | the step and its output are exactly such a turn |
| Arc4.RunInvariant | src/libs/cryptography/ARC4.cpp:43-45 | from any key and after any number of bytes the block is a permutation and the state is not a Finney state |
| Arc4.FinneyBothWays | src/libs/cryptography/ARC4.cpp:43-45 | a step leads to a Finney state exactly from a Finney state |
| Arc4.StepInjective | src/libs/cryptography/ARC4.cpp:43-45 | different states have different successors |
| Arc4.StepUndoesUnstep | src/libs/cryptography/ARC4.cpp:43-45 | the explicit inverse is also a right inverse: every state has a predecessor |
| Arc4.RunIsReversible | src/libs/cryptography/ARC4.cpp:41-46 | any number of steps can be taken back |
| Keystream.SplitDoesNotMatter | src/include/keycap/root/cryptography/ARC4.hpp:31-34 | cutting the input into any consecutive calls gives the same bytes and final state as one call |
| Keystream.CryptTwice | src/libs/cryptography/ARC4.cpp:47-48 | processing twice from the same state restores the input |
| Arc4.DecryptInPieces | src/libs/cryptography/ARC4.cpp:24-50 | a ciphertext arriving in any pieces is decrypted by a second object with the same key |
| MemoryStream.MemoryStream.Run | src/include/keycap/root/network/memory_stream.hpp:48-291 | every run of operations that does not ask for more than remains answers, and ends, as the plain queue of unread bytes does |
| MemoryStream.MemoryStream.Shrink | src/include/keycap/root/network/memory_stream.hpp:222-229 | shrinking drops the read part and leaves the queue as it was |
| MemoryStream.MemoryStream.GetArray | src/include/keycap/root/network/memory_stream.hpp:151-165 | element by element, throwing when the queue runs empty in between |
| MemoryStream.MemoryStream.GetTerminated | src/include/keycap/root/network/memory_stream.hpp:182-195 | the bytes before the first zero, which is consumed, or all bytes |
| MemoryStream.MemoryStream.PutIntegers | src/include/keycap/root/network/memory_stream.hpp:60-65 | a vector is appended as the images of its elements |
| MemoryStream.MemoryStream.Put | src/include/keycap/root/network/memory_stream.hpp:84-104 | bytes go behind everything queued |
| MemoryStream.MemoryStream.PutStream | src/include/keycap/root/network/memory_stream.hpp:107-110 | another stream is appended with its whole buffer, the read part included |
| MemoryStream.MemoryStream.Get | src/include/keycap/root/network/memory_stream.hpp:131-148 | the first bytes of the queue, little-endian, or the exception when it is empty |
| MemoryStream.MemoryStream.GetString | src/include/keycap/root/network/memory_stream.hpp:168-179 | the first bytes of the queue; none at all for size 0, even when it is empty |
| MemoryStream.MemoryStream.GetRemaining | src/include/keycap/root/network/memory_stream.hpp:198-203 | everything queued, as a stream at position 0 |
| MemoryStream.MemoryStream.Peek | src/include/keycap/root/network/memory_stream.hpp:206-213 | a later value of the queue, which stays |
| MemoryStream.MemoryStream.ToVector | src/include/keycap/root/network/memory_stream.hpp:250-255 | everything queued |
| MemoryStream.MemoryStream.WriteTo | src/include/keycap/root/network/memory_stream.hpp:276-291 | the first bytes, or everything, written out and consumed |
| MemoryStream.GetSplits | src/include/keycap/root/network/memory_stream.hpp:131-148 | an integer read, as bytes in front of the rest, gives the queue back |
| MemoryStream.DataSplits | src/include/keycap/root/network/memory_stream.hpp:168-179 | so do the bytes of a string, and of a limited write |
| MemoryStream.TerminatedSplits | src/include/keycap/root/network/memory_stream.hpp:182-195 | a terminated string has no zero, and with the zero behind it and the rest gives the queue back |
| MemoryStream.PeekIsLaterGet | src/include/keycap/root/network/memory_stream.hpp:206-213 | peeking at an offset is reading after that many bytes, taking nothing |
| MemoryStream.TypedRoundTrip | src/test/network/memory_stream.cpp:50-60 | writing any list of typed values and reading it with the same types returns exactly those values and empties the stream |
| MemoryStream.AllReadBack | src/include/keycap/root/network/memory_stream.hpp:130-195 | the same with anything queued behind, which stays queued |
| Crc32.FoldConcat | src/include/keycap/root/utility/crc32.hpp:54-54 | checksumming argument by argument is checksumming their concatenation |
| Crc32.ChecksumByRemainders | src/include/keycap/root/utility/crc32.hpp:30-56 | the checksum is what the engine makes of the remainder after one step per byte |
| Crc32.OneByteDetected | src/include/keycap/root/utility/crc32.hpp:48-57 | with an engine that forgets neither remainder nor byte, altering one byte, wherever it stands, alters the checksum |
| CrcPolynomial.Crc32IsSensitive | src/include/keycap/root/utility/crc32.hpp:48-57 | CRC-32 is such an engine |
| Crc32.Accumulator.Compute | src/include/keycap/root/utility/crc32.hpp:48-57 | the checksum depends only on the concatenated arguments, not on what the thread computed before |
| Crc32.Accumulator.Validate | src/include/keycap/root/utility/crc32.hpp:59-63 | accepts exactly the checksum of the concatenated arguments |
| RegisteredMessage.Encode | src/include/keycap/root/network/registered_message.hpp:39-48 | the stream built is the specified frame |
| RegisteredMessage.Decode | src/include/keycap/root/network/registered_message.hpp:50-62 | the fields are read off the frame and the decoder is left empty; a stream that ends in front of a field throws |
| RegisteredMessage.CanDecode | src/include/keycap/root/network/registered_message.hpp:64-67 | an exception on an empty stream, a read past the end on 1 to 7 bytes, else whether the length field is at most the number of bytes queued |
| RegisteredMessage.DecodeUndoesEncode | src/include/keycap/root/network/registered_message.hpp:39-62 | a frame has 22 + n bytes and decodes to the message with its whole payload buffer: to the message itself exactly when none of the payload was read |
| RegisteredMessage.CrcInBytes | src/libs/utility/crc32.cpp:25-28 | a sender's checksum is over the sender, the command and as many bytes of the payload's buffer, from its start, as are unread |
| RegisteredMessage.FrameInBytes | src/include/keycap/root/network/registered_message.hpp:39-48 | the length field of a fresh payload's frame is the frame's length less eight; requests are marked 1, updates 0 |
| RegisteredMessage.CanDecodePrefix | src/include/keycap/root/network/registered_message.hpp:64-67 | a prefix of at least 8 bytes passes the test exactly from 14 + n bytes on |
| ServiceConnection.ServiceConnection.OnData | src/include/keycap/root/network/service_connection.hpp:50-66 | for any bytes, the method has the specified outcome and leaves the specified bytes buffered; bytes that end in front of a field throw, bytes that end within one are read past |
| ServiceConnection.ServiceConnection.SendAnswer | src/include/keycap/root/network/service_connection.hpp:37-47 | the frame of the answer, with its checksum, is handed to `send` |
| ServiceConnection.WholeFrame | src/include/keycap/root/network/service_connection.hpp:52-65 | a whole frame is accepted or refused by the checksum of its whole payload buffer, and nothing stays buffered |
| ServiceConnection.FeedInBytes | src/include/keycap/root/network/service_connection.hpp:50-66 | any chunk on an empty stream, in bytes: delivered exactly if it has 22 bytes or more, its length field is at most its size and its checksum field is the checksum of everything behind it; when it is kept, refused and when the code throws |
| ServiceConnection.FrameDelivered | src/include/keycap/root/network/service_connection.hpp:57-65 | a frame with any checksum field and any payload is delivered exactly if that field is the checksum of sender, command and whole payload buffer, else refused |
| ServiceConnection.AlteredPayload | src/include/keycap/root/network/service_connection.hpp:59-63 | an altered payload under an unchanged checksum field is delivered exactly if the two checksums coincide |
| ServiceConnection.AlteredByteRefused | src/include/keycap/root/network/service_connection.hpp:59-63 | with a checksum such as CRC-32, which no single byte escapes, a frame one of whose payload bytes was altered is refused |
| ServiceConnection.ClosesAtRefusal | src/libs/network/connection.cpp:94-107 | no chunk is taken after one that is refused or throws |
| ServiceConnection.Reassembly | src/include/keycap/root/network/service_connection.hpp:50-66 | any messages whose frames arrive in any chunks whatever: each is delivered once, in order, with only waiting in between, exactly when the chunks can be grouped into cuts of the frames whose proper prefixes have at least 8 and fewer than 14 + n bytes; then the stream ends empty |
| ServiceConnection.ServedIffInStep | src/include/keycap/root/network/service_connection.hpp:52-57 | the same by the lengths of the chunks alone, also when part of the first frame has been kept already |
| ServiceConnection.InStepIffCleanCuts | src/include/keycap/root/network/registered_message.hpp:64-67 | the lengths are right exactly when the chunks group into clean cuts |
| ServiceConnection.WrongLength | src/include/keycap/root/network/registered_message.hpp:64-67 | a buffer that starts like a frame but is shorter or longer is kept exactly from 8 to 13 + n bytes, and never delivers the message |
| ServiceConnection.CoalescedFramesLost | src/include/keycap/root/network/registered_message.hpp:50-62 | a frame followed by anything in one chunk is not delivered, and all bytes are used up |
| ServiceConnection.FullReads | src/libs/network/connection.cpp:92-97 | a frame in reads as long as possible is delivered exactly when it fits one read or the last read has more than eight bytes |
| ServiceConnection.EveryFrameHasABadCut | src/include/keycap/root/network/registered_message.hpp:64-67 | every frame has a cut into two chunks that is not reassembled |
| ServiceLocator.ServiceLocator.SendRegistered | src/libs/network/service_locator.cpp:56-72 | the next id is taken modulo 2^64, entered unless in use, and the signed request goes to a live connection |
| ServiceLocator.ServiceLocator.SendTo | src/libs/network/service_locator.cpp:44-54 | an update goes out under sender 0 and no table changes |
| ServiceLocator.ServiceLocator.OnData | src/libs/network/service_locator.cpp:79-110 | a chunk of at least 22 bytes whose length field is at most its size, with matching checksum and pending id, posts that id's callback with the bytes from 22 on and removes it; any other chunk changes nothing, and throws if it ends in front of a field that is read |
| ServiceLocator.ReceivedInBytes | src/libs/network/service_locator.cpp:79-110 | the result and the tables after any chunk, in bytes: true when it is incomplete or posts, false when it is complete and does not, with the exact posting |
| ServiceLocator.SentInBytes | src/libs/network/service_locator.cpp:44-72 | an update has sender 0 and command 0, a request the number it is entered under and command 1, and both carry the whole buffer |
| ServiceLocator.NothingReplaced | src/libs/network/service_locator.cpp:62-62 | a request replaces no pending one, also when the counter has come round to it |
| ServiceLocator.ServiceLocator.Run | src/libs/network/service_locator.cpp:44-110 | any run of link changes, sends, requests and received chunks takes the object through the specified states |
| ServiceLocator.EveryRunAccounted | src/libs/network/service_locator.cpp:60-109 | over every run with fewer than 2^64 requests: pending and posted ids partition 0..counter-1, none is posted twice, their numbers add up, and each keeps its registration; received chunks are any bytes, those read past their end being taken to change nothing |
| ServiceLocator.IncomingAccounted | src/libs/network/service_locator.cpp:94-107 | one received chunk of any bytes keeps that invariant, one read past its end being taken to change nothing |
| Transmission.EveryRunSends | src/libs/network/service_locator.cpp:140-157 | over every run, the frames handed to `connection::send` are exactly, in order, those of the messages whose service had a live connection at the call: the k-th request under number k modulo 2^64, updates under 0 |
| Transmission.MessageSentIffUp | src/libs/network/service_locator.cpp:140-157 | the frame of one message of a run is handed to `connection::send` at the call exactly if its service has a live connection then, and otherwise nothing is, then or later |
| Transmission.WrittenIffUpAndOpen | src/libs/network/service_locator.cpp:140-157 | the frame of one message of a run can be written, with nothing sent after it, exactly if its service's connection is alive and its socket open at the call |
| Transmission.RequestFate | src/libs/network/service_locator.cpp:56-109 | one request of a run with fewer than 2^64: exactly one frame with its number is handed to `connection::send` if its service had a live connection at the call, else none ever; it is pending, with its registration, exactly until an intact frame with its number arrives |
| Transmission.RequestSentIffUp | src/libs/network/service_locator.cpp:60-71 | the number of request frames with its number that are handed over is one or none, as the connection was alive or not |
| Transmission.NoQueue | src/libs/network/service_locator.cpp:143-156 | a request made before its link comes up is still unsent and pending after it has |
| Rpc.EndToEnd | src/libs/network/service_locator.cpp:56-110 | a request goes out intact, as a request under a new id, and is delivered from reads as long as possible exactly when they are in step; the first read of the answer to it posts its own callback with its service type and the exact reply, the tables being otherwise as before, exactly when the reply has at most 1002 bytes |
| Rpc.AnswerReceived | src/libs/network/service_locator.cpp:94-109 | an answer posts exactly the callback under its id, or nothing if the id is not pending |
| Rpc.AnswersInAnyOrder | src/libs/network/service_locator.cpp:79-110 | any outstanding requests answered in any order, the frames arriving in any chunks whatever: each callback is posted once, in the order of the answers, with its own reply, exactly when the nonempty chunks are the frames; then the rest stays pending and nothing else changes |
| Rpc.AnswersOnOneConnection | src/libs/network/connection.cpp:88-107 | the same on one connection, closed by the first chunk that is refused or throws: exactly when the chunks are the frames, with at most empty ones behind |
| Rpc.AnswersFitReads | src/libs/network/connection.cpp:92-97 | there are reads of at most 1024 bytes that carry the frames and post all callbacks exactly when no reply has more than 1002 bytes |
| Rpc.CoalescedAnswersLost | src/libs/network/service_locator.cpp:79-110 | two or more answers that arrive in one chunk are never all posted |
| Rpc.AnswerToUpdate | src/libs/network/service_locator.cpp:44-54 | an answer to an update changes the locator exactly when request 0 is pending, whose callback it then posts |
| Rpc.UnreadRestDelivered | src/include/keycap/root/network/registered_message.hpp:42-46 | the receiver is handed a payload's unread rest exactly when none of it had been read |
| Rpc.OnlyWholeAnswersPost | src/libs/network/service_locator.cpp:81-86 | of the prefixes of an answer only the whole frame posts the callback with the exact reply |
| Rpc.PostedPayloadsFit | src/libs/network/connection.cpp:92-97 | in every run whose reads have at most 1024 bytes no callback is handed more than 1002 bytes |
| Rpc.AnswerFits | src/libs/network/service_locator.cpp:79-86 | some read of at most 1024 bytes hands a pending callback exactly a given reply, and the first read of its answer does, exactly when the reply has at most 1002 bytes |
| Rpc.Exchange | src/test/network/service_locator.cpp:214-245 | request, delivery, answer and posting on the two objects, request and reply of at most 1002 bytes |
| Schedule.EveryInterleaving | src/include/keycap/root/utility/schedule.hpp:74-119 | in every interleaving of up to 2^32 adds with completions, handlers and cancels: ids are 0..adds-1, every callback is invoked at most once, and once exactly when its handler is done; an item is in the cancelled history exactly when its handler dropped it or will |
| Schedule.DroppedIffCancelled | src/include/keycap/root/utility/schedule.hpp:85-111 | in such a run, a handler looking up its item was armed by exactly one earlier step, and drops the item exactly if a cancel of it stands between the two |
| Schedule.InvokedOnlyIfFound | src/include/keycap/root/utility/schedule.hpp:88-96 | in such a run, every invocation follows a lookup by its handler that found the timer in the table |
| Schedule.InvocationError | src/include/keycap/root/utility/schedule.hpp:85-119 | in such a run, a callback is told Ok exactly if its wait expired, and else that it was aborted, which takes an earlier `cancel_all` |
| Schedule.StepKeepsItem | src/include/keycap/root/utility/schedule.hpp:86-119 | each atomic step keeps, for each item, the relation between its phase, the table, the cancels and the invocations |
| Schedule.CancelBeforeLookupIsFinal | src/include/keycap/root/utility/schedule.hpp:88-111 | a cancel finished before the handler's lookup keeps the callback from ever being invoked, whatever runs before and after |
| Schedule.EveryItemFinishes | src/include/keycap/root/utility/schedule.hpp:85-97 | from every reachable state an item can be brought to its end, which is one invocation unless it was cancelled |
| Schedule.CancelAllStillInvokes | src/include/keycap/root/utility/schedule.hpp:113-119 | after `cancel_all` an item not looked up yet and not cancelled is still found and invoked, with the aborted error if it was waiting and else with the error its wait had ended with |
| Schedule.CancelAllCancelsNothing | src/include/keycap/root/utility/schedule.hpp:113-119 | for every item, after `cancel_all` some continuation has its callback invoked exactly if the item was not cancelled by itself |
| Schedule.Schedule.Perform | src/include/keycap/root/utility/schedule.hpp:74-119 | every possible run takes the object through the states of the state machine |
| Schedule.Schedule.Cancel | src/include/keycap/root/utility/schedule.hpp:103-111 | the method takes the cancel step of the state machine |
| Schedule.Schedule.CancelAll | src/include/keycap/root/utility/schedule.hpp:114-119 | the loop ends every wait in progress and leaves the table as it is |
| Schedule.Schedule.Allocate | src/include/keycap/root/utility/schedule.hpp:79-79 | takes the next counter modulo 2^32 |
| Schedule.Schedule.Arm | src/include/keycap/root/utility/schedule.hpp:81-97 | enters the timer and starts its wait |
| Schedule.Schedule.Lookup | src/include/keycap/root/utility/schedule.hpp:88-89 | whether the handler goes on depends on the table only |
| Schedule.Schedule.Erase | src/include/keycap/root/utility/schedule.hpp:91-91 | the handler's own cancel |
| Schedule.Schedule.Invoke | src/include/keycap/root/utility/schedule.hpp:93-96 | the callback is given the error of its wait |
| Connection.NothingLostOrReordered | src/libs/network/connection.cpp:72-135 | in every interleaving, with partial, failing writes and closes: bytes on the wire followed by the unwritten rest are the packets sent, in order; a sleeping writer with something to write has been woken |
| Connection.WriterDrains | src/libs/network/connection.cpp:112-130 | from every reachable open state the writer alone gets every accepted byte onto the wire and sleeps again |
| Connection.WrittenIffOpen | src/libs/network/connection.cpp:72-135 | a packet passed to `send` gets onto the wire, behind all those before it, in some continuation without another send if the connection is open, and in no continuation at all if it is not |
| Connection.ClosedWireStays | src/libs/network/connection.cpp:112-140 | nothing is written to a closed connection, which stays closed |
| Connection.SentAfterClose | src/libs/network/connection.cpp:72-130 | a packet sent after the close of an idle connection is taken and never written |
| Connection.ClosedWriterEnds | src/libs/network/connection.cpp:112-140 | on a closed connection the writer can come to its end without another send exactly if it is not asleep |
| Connection.AsleepUntilSend | src/libs/network/connection.cpp:118-122 | a sleeping writer nobody has woken stays asleep in every run without a send, closes included |
| Connection.Connection.Perform | src/libs/network/connection.cpp:72-140 | every possible run takes the object through the states of the state machine |
| Connection.Connection.Send | src/libs/network/connection.cpp:72-76 | the packet is queued last and a sleeping writer woken |
| Connection.Connection.Resume | src/libs/network/connection.cpp:116-129 | the coroutine from one suspension to the next |
| Otp.Generate | src/libs/cryptography/OTP.cpp:28-56 | masks, shifts, the table of powers and the padding loop compute the specified code |
| Otp.BinaryIsTruncation | src/libs/cryptography/OTP.cpp:39-46 | the masked, shifted and or-ed bytes are the dynamic truncation of section 5.3 of RFC 4226, below 2^31 |
| Otp.HotpFollowsRfc4226 | src/libs/cryptography/OTP.cpp:34-55 | the code has exactly the digits asked for and denotes the truncated HMAC of the big-endian counter modulo that power of ten |
| Otp.HotpLength | src/libs/cryptography/OTP.cpp:48-55 | only a request for no digits is not met |
| Otp.Validate | src/libs/cryptography/OTP.cpp:67-82 | a code of at most 8 characters is accepted exactly if it is the HOTP code of its length for the step before, at or after now, the one before time 0 being 2^64 - 1; a longer one is read past the table |
| Otp.AcceptedIffNear | src/libs/cryptography/OTP.cpp:61-82 | from time 30 on, a code is accepted exactly if it is generated, with start 0 and step 30, for some time in the step of now or one next to it |
| Otp.NonNumeralRefused | src/libs/cryptography/OTP.cpp:75-81 | a text that is not all digits is never accepted |
| Otp.EmptyRefused | src/libs/cryptography/OTP.cpp:75-81 | nor is the empty one |
| Otp.OldCodeAcceptedIffEqual | src/libs/cryptography/OTP.cpp:72-81 | the code of any step is accepted exactly if its truncated HMAC equals one of the three current ones modulo that power of ten |
| Otp.TotpCounter | src/libs/cryptography/OTP.cpp:61-65 | the counter is the number of whole steps since the start, or minus those until it, modulo 2^64 |
| Otp.CodeExample | src/libs/cryptography/OTP.cpp:39-50 | the example of section 5.4 of RFC 4226 gives 872921 |
| Otp.CodeAcceptedWithin30Seconds | src/libs/cryptography/OTP.cpp:61-82 | a code generated with start 0 and step 30 is accepted at every time at most 30 seconds away |
| EnumText.DoForEachEntry | src/include/keycap/root/utility/enum.hpp:91-121 | the loop makes the specified calls, and ends because the text shrinks |
| EnumText.ParsesPrinted | src/include/keycap/root/utility/enum.hpp:51-121 | any printed enum, with any texts as values, any blanks and with or without a final comma, is read as its entries without those whose text is no number, in order |
| EnumText.ParsesWithCppNumbering | src/test/utility/enum.cpp:21-53 | they get C++'s values exactly when every entry is in step: a text taken for a number is taken for its value, and an entry without one, if it follows a skipped entry, follows one with the value of the last entry not skipped |
| EnumText.ParsesEveryEnumerator | src/include/keycap/root/utility/enum.hpp:91-117 | all enumerators are read with C++'s values exactly when every text is taken for a number, and for its value |
| EnumText.ParsesDecimals | src/include/keycap/root/utility/enum.hpp:40-49 | so enums with plain decimal values are read exactly |
| EnumNumbering.NumberedIsCpp | src/include/keycap/root/utility/enum.hpp:95-117 | for any way of taking texts for numbers: numbering with skipped entries agrees with C++ on every prefix up to the first entry out of step, and from then on does not |
| EnumNumbering.NumberedIsAll | src/include/keycap/root/utility/enum.hpp:95-117 | and it is C++'s numbering of all enumerators exactly when all texts are taken for their values |
| EnumText.AliasesCanFallOutOfStep | src/include/keycap/root/utility/enum.hpp:105-111 | `A=5,B,C=A,D` gives D the value 6 in C++ and 7 here |
| EnumText.HexadecimalIsMisread | src/include/keycap/root/utility/enum.hpp:40-49 | `A=0x10,B` gives 16 and 17 in C++, 0 and 1 here |
| EnumText.BlanksAfterFinalComma | src/include/keycap/root/utility/enum.hpp:98-115 | blanks after a final comma, which only a direct call can pass, are read as one more entry, with an empty name |
| EnumText.ConvertDecimal | src/include/keycap/root/utility/enum.hpp:40-49 | every printed int32 is read back as itself |
| EnumText.ConvertSigned | src/include/keycap/root/utility/enum.hpp:40-49 | a sign or none, digits and anything behind them convert to the number, if it is within int32 |
| EnumText.ConvertFails | src/include/keycap/root/utility/enum.hpp:40-49 | every other text fails to convert |
| EnumText.CutAtCommas | src/include/keycap/root/utility/enum.hpp:51-71 | any text is cut at its commas, each piece losing its blanks |
| EnumText.TurnOfEntry | src/include/keycap/root/utility/enum.hpp:73-117 | any entry is named up to its first equals sign, and numbered or skipped by what follows |
| EnumText.NoBlanksLeft | src/include/keycap/root/utility/enum.hpp:32-38 | no space or tab is left, and a text without any is left alone |
| EnumText.VectorMeaning | src/include/keycap/root/utility/enum.hpp:183-196 | the vector holds each value once, in the order of first occurrence |
| EnumText.NameValueMapMeaning | src/include/keycap/root/utility/enum.hpp:123-130 | a name has the number of its last entry |
| EnumText.ValueNameMapMeaning | src/include/keycap/root/utility/enum.hpp:132-139 | a number has the name of its first entry |
| EnumText.MakeNameValueMap | src/include/keycap/root/utility/enum.hpp:123-130 | the loop builds the specified map |
| EnumText.MakeValueNameMap | src/include/keycap/root/utility/enum.hpp:132-139 | the loop builds the specified map |
| EnumText.MakeVector | src/include/keycap/root/utility/enum.hpp:183-196 | the loop builds the specified vector |
| EnumText.VectorIsKeys | src/include/keycap/root/utility/enum.hpp:132-196 | the vector holds exactly the keys of the value map |
| EnumText.ValueOfNameOfValue | src/include/keycap/root/utility/enum.hpp:123-139 | with distinct names, value to name to value is the identity |
| EnumText.TablesOfPrintedEnum | src/include/keycap/root/utility/enum.hpp:123-196 | every enumerator not skipped of a printed enum in step maps to its C++ value, and that value to a name with the same value |

## Left out

- The insides of SHA-1, HMAC, base32, the tables of Boost's CRC-32, zlib, big-number arithmetic and random generators; primality of the shipped group parameters.
- `sha_interleave` dereferences the end iterator when the trimmed string is empty, which C++ leaves undefined; the model hashes two empty strings there.
- `std::stable_partition` is taken to ask its predicate about each element at its original address.
- `memory_stream`: `advance`, `override`, `operator[]`, `decompress`, and arrays of strings; what a read past the end returns.
- Sockets, thread pools, `data_router`, `locate`, `on_link` and reconnection; liveness of a connection is an input (`SetLink`).
- The value a service handler returns; a delivered message is taken as accepted.
- Schedule.EveryInterleaving: does not cover more than 2^32 adds, where the counter wraps and ids are reused.
- Schedule: each access to the table is one atomic step, also the unlocked lookup at the head of the handler; handing the callback to another io service counts as its invocation.
- Otp.Validate: requires step numbers below 2^53, which pass unchanged through the `double` of `std::floor`.
- Values given by an expression with a comma in it, at which the parser cuts the entry, and attributes of enumerators.
- EnumText: `fix`, `fillMissing` and the minimum of `doForEachEntry`, which only they use; the flag operations; signed overflow of the running number past 2147483647.
- Hexadecimal printing, `explode`, `join`, configuration files, logging, `meta.hpp`: only easy members.

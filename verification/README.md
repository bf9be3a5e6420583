# The Minecraft protocol stack, modelled and verified

This project models the byte-stream stack of a Minecraft protocol library: typed packets, VarInt
framing, optional zlib compression, optional AES-128/CFB8 encryption, and buffered streams that may
take or return only part of what they are asked for. Each layer is written in the form the library
gives it (classes whose methods update buffers, offsets and cipher registers; loops over a stream) and
is proved against a specification on plain byte strings; the specifications are then composed into
one theorem about whole sessions.

`dafny verify dfyconfig.toml` checks everything.

## How the modules fit together

| module | part of the library |
|---|---|
| `Bytes`, `Bits` | bytes, parses, bitwise operators as functions on naturals |
| `VarInt` | the VarInt reader, writer and size |
| `Combinators` | big-endian integers, bool, byte arrays, Option, tuples and arrays over them |
| `Cfb8` | CFB with 8-bit segments (section 6.3 of NIST SP 800-38A) over an uninterpreted block function; the code passes the key as initialisation vector |
| `SyncWriters` | the blocking buffered, encrypting and switchable writers over a sink that takes any part of a write |
| `AsyncWriters`, `AsyncSwitch` | the polled writers (`Fill` / `Write(offset)`), the polled decrypting reader, arbitrary runs of polls |
| `Readers` | transport with short reads, decryption, look-ahead buffer |
| `Inflating` | the contract of the streaming inflater, and a codec with slices that add nothing |
| `Adapters` | the bound and inflate adapters stacked by `read_packet`, and arbitrary packet handlers running over them |
| `Packets` | what a frame is, on byte strings |
| `Protocol` | `read_packet` |
| `PreCompression` | the growing vector around the streaming compressor |
| `Sending` | `write_packet_internal` |
| `Session` | what many frames look like on the wire, what reading them should come to, the switch |
| `Delivery` | round trip, resynchronisation and whole sessions, run through the classes above, and runs that fail |
| `Handshake` | version detection and the handshake length prefix |
| `Legacy` | the UTF-16 responses to old pings |

Nondeterminism stands for the environment: a sink takes any part of a slice, answers Pending or
fails; a source returns any non-empty part of what is asked; the inflater takes any non-empty part of
what it is shown, up to a given size (an eager one all of that), unless it is not valid; the compressor takes any part of its input and
gives any part of the output it has made so far. Nothing is assumed about such choices unless a
contract says so (`healthy` excludes I/O errors). A failed read and the end of the stream are one and
the same stream error. A packet handler is any
function from the answers it has had so far to its next request, and from all of them to a result;
its own errors are part of that result. The table of known packets is any predicate on ids.

A codec is a parameter, with `Codec.Sane` as its precondition: what has been made of the input so far only
grows, the finished output starts with it, decompresses to the input and is valid; only input that is
not valid is found corrupt. `PreCompression.StoredIsSane` gives one. `DeflateStep` is the contract of a single
call of the compressor class.

## What the code turns out to do

Where the code does less than one would expect, the model follows the code, and the exact condition is
proved.

* **A compressed packet is not always delivered or left at its end.** One `read` of the inflating
  reader is one call of the inflater, and a call that adds no output reads as the end of the stream
  (src/defaults/sync.rs:31-39). After the packet only the inner, decompressed bound is discarded
  (src/protocol/mod.rs:592-597), so compressed bytes that add no output stay in front of the next
  packet. With the cut clean (the slices the inflater takes cover the payload and each adds output) the
  packet is read right and to its end, and, when the handler's result shows a short read, only then
  (`Delivery.ReceiveOne`; over whole runs of packets `Delivery.ReceiveAll`). One case can be told before the
  call: the whole frame has been read ahead, and the inflater takes all it is shown, at least as much
  as the payload (`Delivery.WholeIsClean`, `Delivery.WholeRun`). The failing inputs are `Delivery.SmallBitesFail`,
  `Delivery.OneByteBitesFail` and, with literal bytes, `Delivery.FailingRun`. Sessions in which nothing is
  compressed need no condition. The comment at src/traits.rs:192-194 promises the discarding without
  one.
* **Unknown ids are not skipped**; the stream stays just past the id, which is the end of the frame
  exactly when the payload is empty, or, compressed, when the cut is clean (`Delivery.ReceiveUnknown`).
* **The switch to encryption clears the write buffer** and leaves look-ahead bytes undecrypted. Nothing
  is lost exactly when the buffer is empty (`SyncWriters.DefaultWriter.WithEncryption`), and the reader
  is right for every cipher exactly when nothing was read ahead (`Session.SwitchNeedsEmptyLookAhead`).
  A written packet ends with a flush, so the first condition holds at packet boundaries.
* **The growth guess of the pre-compressor underflows** when a compressor call leaves exactly one byte
  (src/defaults/sync.rs:404), and in no other case (`PreCompression.PreCompressor.Write`).
* **A buffer of capacity zero** makes the blocking writer fail every non-empty write, and the polled
  writer spin (`AsyncWriters.PollWriteReturnsIff`).
* **The handshake decoder keeps bit 7 of its first byte** (src/primatives/handshake_version.rs:63-68). It
  agrees with the VarInt exactly when the length is below 128, or the first byte is not 0xFE and
  bit 7 of the length is set; a handshake longer than 127 bytes is otherwise read 128 bytes too far. Its
  comment and error speak of three bytes; the loop accepts four.
* **A packet type whose `size` is wrong** produces a frame that does not end where it was meant to
  (`Packets.DishonestMisaligns`). Compressed, it does end there, but the handler sees the payload cut short,
  or the read fails (`Delivery.ReceiveOne`, `Delivery.CollectedIffHonest`).
* **The 1.3 ping response** does not escape the section sign it separates fields with; the strings come
  back exactly when none contains it.
* The error exit of the VarInt writer, marked as impossible in a comment, is never taken
  (`VarInt.Serialize`).

## Model

| member | source | states |
|---|---|---|
| VarInt.SizeIsLength | src/primatives/varint.rs:48-55 | The size computed from the binary logarithm is the number of bytes the base-128 encoding has, one to five |
| VarInt.CastsKeepModulo | src/primatives/varint.rs:50-52 | The casts between i32 and u32 keep a number modulo 2^32, negative ones included, and undo each other |
| VarInt.RoundTrip | src/primatives/varint.rs:31-72 | For every i32 and every continuation of the stream, reading the encoding gives the number and the continuation |
| VarInt.PrefixFree | src/primatives/varint.rs:57-72 | Two streams that start with encodings and are equal start with the same number and go on alike |
| VarInt.Minimal | src/primatives/varint.rs:31-55 | Any bytes accepted as x, padded or with bits shifted out, are at least as many as the writer would emit; as many and with no bits shifted out, they are the writer's bytes |
| VarInt.DigitsBound | src/primatives/varint.rs:57-72 | The encoding has at most k bytes exactly when the number is below 128^k |
| VarInt.EncodeDigits | src/primatives/varint.rs:57-68 | Byte i of the encoding is the i-th base-128 digit, least significant first, with the continuation bit on all but the last |
| VarInt.FiveByteValue | src/primatives/varint.rs:31-38 | Any five-byte VarInt reads as the sum of its groups at weights 1, 2^7, 2^14, 2^21 and 2^28, only the low four bits of the last counting |
| VarInt.Accumulate | src/primatives/varint.rs:33-35 | Masking, shifting on u32 and OR-ing a byte into the accumulator gives the weighted sum of all bytes so far modulo 2^32 |
| VarInt.DecodeWhole | src/primatives/varint.rs:33-38 | Up to four continuation bytes and a last byte are a whole VarInt, whatever follows |
| VarInt.DecodeFails | src/primatives/varint.rs:33-45 | Five continuation bytes are the OverSized error with the rest unread; a stream that ends earlier is a stream error |
| VarInt.Serialize | src/primatives/varint.rs:57-72 | The five-byte buffer loop emits exactly the base-128 digits, for every i32; the error exit is unreachable |
| Combinators.BigEndianInverse | src/primatives/mod.rs:181-202 | Big-endian digits at a width read back as the number, for all numbers of that width |
| Combinators.BigEndianDigit | src/primatives/mod.rs:197-199 | Byte i of a w-byte integer is its base-256 digit of weight 256^(w-1-i) |
| Combinators.BigEndianWeight | src/primatives/mod.rs:184-186 | Read, the first byte has the greatest weight |
| Combinators.SizeIsBytesWritten | src/primatives/tuple.rs:3-31 | For every type built from integers, bool, VarInt, byte arrays, Option, tuples and arrays, and every value of it, the announced size is the number of bytes written |
| Combinators.ReadsBack | src/primatives/tuple.rs:14-29 | For every such type and value, reading what was written before any other bytes gives the value and leaves those bytes |
| Combinators.ReadIsTypedAndNoShorter | src/primatives/option.rs:16-22 | Whatever is read is a value of the type, and took at least as many bytes as writing that value would |
| Combinators.IntReadsBack | src/primatives/mod.rs:181-202 | Signed integers survive it through their two's complement |
| Combinators.TwosComplement | src/primatives/mod.rs:184-199 | The unsigned form of a signed integer is it or it plus 256^w, within w bytes, its top bit the sign |
| Combinators.Tags | src/primatives/option.rs:24-36 | True is 1 and false 0; None is a 0 alone and Some a 1 before the value; byte arrays and VarInts go as they are |
| Combinators.TagsRead | src/primatives/bool.rs:10-13 | Any byte but zero reads as true, and announces a value |
| Combinators.TupleInOrder | src/primatives/tuple.rs:22-29 | A tuple's bytes are its components' one after another: a longer tuple splits into its front and its back |
| Combinators.SliceInOrder | src/primatives/array.rs:33-38 | The same for the items of an array |
| Combinators.TruncatedFails | src/primatives/mod.rs:183-187 | No proper prefix of what was written for a value of any type reads as anything; it is a stream error with nothing left |
| Combinators.TupleReadsBack | src/primatives/tuple.rs:14-29 | Components written in order are read in order, each from where the previous one ended |
| Combinators.ArrayReadsBack | src/primatives/array.rs:9-24 | The same for arrays of any length |
| Combinators.WriteItems | src/primatives/array.rs:33-38 | The slice writer's loop emits the concatenation of its items' encodings |
| Combinators.ReadItems | src/primatives/array.rs:10-19 | The array reader's loop reads item after item and gives up at the first error with the rest unread |
| Cfb8.EncryptIsStandard | src/defaults/sync.rs:113-117 | A ciphertext is the standard's (each segment enciphered under the last 16 bytes of IV and ciphertext) if and only if it is what the register-shifting encryptor produces |
| Cfb8.AdvanceAt | src/defaults/sync.rs:113-117 | The register after some ciphertext, byte by byte: what is left of the old one shifted to the front, then the ciphertext's last bytes |
| Cfb8.KeyIsIv | src/defaults/sync.rs:332-336 | The key given is both the block cipher's key and the initialisation vector |
| Cfb8.IdentityStream | src/defaults/sync.rs:113-117 | Two literal ciphertext bytes, the second from the shifted register |
| Bits.XorByteBits | src/defaults/sync.rs:113-117 | Bit k of the XOR of two bytes is set if and only if it is set in exactly one of them |
| Cfb8.EncryptSplit | src/defaults/sync.rs:113-117 | Enciphering a concatenation is enciphering the parts one after the other with the register carried over |
| Cfb8.DecryptSplit | src/defaults/sync.rs:90-94 | The same for deciphering, the register being the ciphertext's last 16 bytes |
| Cfb8.Inverse | src/defaults/sync.rs:90-94 | Deciphering inverts enciphering for every block function, register and plaintext |
| Cfb8.EncryptPiecesIsOneShot | src/defaults/sync.rs:110-127 | However the plaintext is cut into calls, the ciphertext is the one-shot one |
| Cfb8.DecryptPiecesIsOneShot | src/defaults/sync.rs:85-97 | However the ciphertext is cut into calls, the plaintext is the one-shot one |
| Cfb8.AnyPairOfChunkings | src/defaults/sync.rs:81-142 | For every pair of cuts on the two sides, what has been deciphered so far is a prefix of what was enciphered, byte for byte read |
| SyncWriters.Sink.WriteAll | src/with_std.rs:160-163 | The write-all loop over a sink that takes parts: on success exactly the data has been appended, on failure a proper prefix of it |
| SyncWriters.BufferedWriter.Write | src/defaults/sync.rs:289-301 | Sink plus buffer stay the accepted bytes in order; the buffer never exceeds its capacity; how many bytes are taken; the sink is touched only when the buffer is full |
| SyncWriters.BufferedWriter.Flush | src/defaults/sync.rs:303-310 | After a successful flush the sink holds everything accepted, flushed through; however it ends, a prefix of it |
| SyncWriters.EncryptionWriter.Drain | src/defaults/sync.rs:112-121 | The buffer is enciphered once with the register reached and written out whole, continuing the one-shot stream |
| SyncWriters.EncryptionWriter.Write | src/defaults/sync.rs:110-127 | The sink holds the one-shot CFB8 encryption of all accepted bytes but those in the buffer, whatever the sizes of the writes |
| SyncWriters.EncryptionWriter.Flush | src/defaults/sync.rs:129-141 | After a successful flush the sink holds the one-shot CFB8 encryption of everything accepted, flushed through; however it ends, a prefix of it |
| SyncWriters.DefaultWriter.WithEncryption | src/defaults/sync.rs:324-343 | The switch keeps the sink and starts an empty stream; nothing accepted before is lost if and only if the buffer was empty |
| SyncWriters.DefaultWriter.Write | src/defaults/sync.rs:349-359 | In either state the accepted bytes are extended by exactly the reported prefix |
| SyncWriters.DefaultWriter.Flush | src/defaults/sync.rs:361-371 | In either state the sink then holds the wire image of everything accepted, flushed through; after a failure a prefix of it that has only grown |
| SyncWriters.DefaultWriter.WriteAll | src/with_std.rs:160-163 | The data is accepted whole, which with a sink that never fails happens exactly when the capacity is not zero or there is no data; however it ends, the sink has only grown, within the image of what was to come |
| AsyncWriters.WriteReturns | src/defaults/asynchronous/tokio.rs:320-343 | Each pass of the poll loop that does not return lowers (phase, what is left to write), which bounds the passes before `poll_write` returns, for every appetite of the sink |
| AsyncWriters.PollWriteReturnsIff | src/defaults/asynchronous/tokio.rs:313-344 | Against a sink that always takes something, `poll_write` returns if and only if the capacity is not zero |
| AsyncWriters.AsyncBufferedWriter.PollWrite | src/defaults/asynchronous/tokio.rs:313-344 | In every phase sink plus unwritten buffer equal the accepted bytes, across Pending, short writes and errors; how many bytes a Ready takes; Pending exactly when the sink said so |
| AsyncWriters.AsyncBufferedWriter.PollFlush | src/defaults/asynchronous/tokio.rs:346-368 | A Ready flush means the sink equals everything accepted; a Pending one has lost nothing |
| AsyncWriters.AsyncBufferedWriter.Push | src/defaults/asynchronous/tokio.rs:332-341 | One inner write moves the offset by what was taken, and at the end of the buffer empties it |
| AsyncWriters.AsyncEncryptionWriter.Seal | src/defaults/asynchronous/tokio.rs:195-200 | The edge from filling to writing enciphers the buffer in place exactly once, at the register reached |
| AsyncWriters.AsyncEncryptionWriter.Push | src/defaults/asynchronous/tokio.rs:202-211 | Sink plus ciphertext from the offset on stay the one-shot encryption of everything accepted |
| AsyncWriters.AsyncEncryptionWriter.PollWrite | src/defaults/asynchronous/tokio.rs:178-214 | The invariant of both phases under any schedule; how many plaintext bytes a Ready takes |
| AsyncWriters.AsyncEncryptionWriter.PollFlush | src/defaults/asynchronous/futures.rs:209-239 | A Ready flush means the sink holds the one-shot CFB8 encryption of everything accepted; it terminates with or without a buffer |
| AsyncSwitch.AsyncDefaultWriter.WithEncryption | src/defaults/asynchronous/tokio.rs:383-403 | The switch loses nothing if and only if nothing was waiting to be written, in whichever phase the old writer was |
| AsyncSwitch.AsyncDefaultWriter.PollWrite | src/defaults/asynchronous/tokio.rs:409-427 | Each poll extends the accepted bytes by the reported prefix or leaves them alone, and only appends to the wire |
| AsyncSwitch.AsyncDefaultWriter.PollFlush | src/defaults/asynchronous/tokio.rs:429-446 | Ready means drained, with the wire equal to its goal |
| AsyncSwitch.AsyncDefaultWriter.WireIsPrefix | src/defaults/asynchronous/tokio.rs:167-246 | At every reachable moment the wire is a prefix of the wire image of the accepted bytes |
| AsyncSwitch.Drive | src/defaults/asynchronous/tokio.rs:405-446 | Every run of interleaved `poll_write` and `poll_flush`: the pieces reported are accepted in order, the wire is a prefix of their one-shot image, and equals it after a completed flush |
| AsyncSwitch.DriveSwitch | src/defaults/asynchronous/tokio.rs:383-403 | Every run of polls with a switch in it: the wire is what the sink had, then the one-shot encryption of what is taken later; what had not reached the sink is lost and nothing else, nothing after a completed flush |
| AsyncSwitch.SameCiphertext | src/defaults/sync.rs:106-142 | The blocking and the polled encrypting writer, flushed after the same accepted stream, have sent the same ciphertext, the standard's, whatever their sinks held before, their capacities, write sizes and flush points |
| AsyncSwitch.AsyncDecryptionReader.PollRead | src/defaults/asynchronous/tokio.rs:137-159 | Only the part of the buffer filled by this call is deciphered, in place; what is returned continues the one-shot decryption |
| Readers.DefaultReader.Read | src/defaults/sync.rs:271-277 | A read hands out the next bytes of the (deciphered) stream; the register stays the last 16 bytes of IV and ciphertext read |
| Readers.DefaultReader.ReturnsPlaintext | src/defaults/sync.rs:81-98 | While the ciphertext is a prefix of an encryption, the bytes returned so far are a prefix of its plaintext |
| Readers.BufReader.WithEncryption | src/defaults/sync.rs:552-557 | Decryption starts beneath the look-ahead, whose bytes stay as they are |
| Readers.BufReader.Read | src/defaults/sync.rs:516-517 | Buffered reads of any size return the stream in order, nothing lost or repeated, and something unless at its end |
| Session.SwitchNeedsEmptyLookAhead | src/defaults/sync.rs:552-557 | Bytes read ahead and the rest are right for every cipher if and only if nothing was read ahead |
| Inflating.Inflater.Inflate | src/defaults/sync.rs:31-39 | One call: what it takes, all of it or a bounded part if eager; what it hands out of its window; that a slice adding output hands out something and one adding none nothing; that only input that is not valid is found corrupt, and nothing is taken or given from then on |
| Inflating.StoredRoundTrip | src/defaults/sync.rs:31-39 | A concrete codec meets the streaming contract and loses nothing |
| Inflating.SmallBitesUnneeded | src/defaults/sync.rs:31-39 | Any cut of that codec's output into slices of at most two bytes has a slice taken when no output was wanted any more |
| Adapters.Handle | src/traits.rs:187-202 | A handler, whatever it asks for, leaves a suffix of what it could read |
| Adapters.PacketReader.Read | src/defaults/sync.rs:153-155 | Through bound, inflater and inner bound, a read hands out the next available bytes; the outer bound and the stream move by what was consumed below |
| Adapters.PacketReader.ReadInflated | src/defaults/sync.rs:31-39 | The inflating read between its two bounds; it returns nothing early only after a slice that added no output, or with input that cannot be taken; and when it returns something every slice so far added output |
| Adapters.PacketReader.InflateTake | src/defaults/sync.rs:31-39 | `fill_buf`, inflate, `consume`: the position before and after one call |
| Adapters.PacketReader.WithDecompression | src/defaults/sync.rs:221-228 | The inflater is reset and stacked between the two bounds, consuming nothing |
| Adapters.PacketReader.ReadExact | src/with_std.rs:110-113 | Fills the buffer with the next n bytes, or takes everything and fails |
| Adapters.PacketReader.Discard | src/with_std.rs:138-151 | Drops exactly n bytes, or takes everything and fails |
| Adapters.PacketReader.ReadVarInt | src/primatives/varint.rs:31-46 | The reader's loop over the adapters returns what the reference parse of the available bytes gives, and leaves what it leaves |
| Adapters.PacketReader.Run | src/traits.rs:187-202 | Any handler run over the adapters gets the answers, and leaves the bytes, it would on the plain byte string; a result no short read can lead to shows that every slice added output |
| Adapters.CollectReturnsAll | src/traits.rs:187-202 | The handler that reads all there is returns the payload, which no run with a short read does |
| Adapters.RawView | src/defaults/sync.rs:186-210 | Without an inflater the stream moved by exactly what was delivered, and what lies beyond the bound is untouched |
| Adapters.InflatedView | src/protocol/mod.rs:592-597 | With one, the stream stands after what the inflater took of the payload, and a used-up inner bound means that much was decompressed |
| Adapters.IdStarts | src/protocol/mod.rs:561-564 | Once an id has been read through the inflater without a short read, the first slice had added output |
| Packets.SizeDiscipline | src/protocol/mod.rs:758-834 | Every frame starts with a length of at most three bytes, and it equals the bytes that follow if and only if the packet was honest or compressed |
| Packets.FramedIff | src/protocol/mod.rs:763-828 | A packet has a frame if and only if its length field takes at most three bytes and, compressed, its size fits an i32; the size reported otherwise is the one that was too large |
| Packets.ThresholdIff | src/protocol/mod.rs:764-784 | An honest packet is framed compressed if and only if its id and payload reach the threshold |
| Packets.LongLengthRefused | src/protocol/mod.rs:550-553 | A length that goes on after its third byte is a stream error there |
| Packets.NegativeSizeRefused | src/protocol/mod.rs:581-586 | A negative uncompressed size is refused, with what follows it unread |
| Packets.ShortBodyRefused | src/protocol/mod.rs:564-567 | A known id in a body that stops short of its bound is a stream error, whatever its handler makes of it |
| Packets.TruncatedNeverDone | src/protocol/mod.rs:546-605 | An honest uncompressed frame cut off anywhere never makes a packet, whoever handles it, and nothing is left of it |
| Packets.MarkerIsUnambiguous | src/protocol/mod.rs:779-813 | The size field of a compressed frame is the uncompressed size and never the zero that marks an uncompressed one |
| Packets.FrameReadsBack | src/protocol/mod.rs:546-605 | Any frame before any other bytes is read as its id and payload, or announced size and compressed bytes, with nothing lacking and exactly those bytes left; the thresholds need only agree on being set |
| Packets.BodyReadsBack | src/protocol/mod.rs:561-575 | A known id hands its payload alone to its handler and everything is used up; an unknown one leaves the payload |
| Packets.DishonestMisaligns | src/protocol/mod.rs:758-836 | An uncompressed frame is read to its end exactly if the announced size is the size written |
| Protocol.HandlePacket | src/protocol/mod.rs:561-575 | Id, handler, discarding on the stacked reader refine the reading of a byte string |
| Protocol.HandleKnown | src/protocol/mod.rs:564-567 | Whatever part the handler reads, nothing of the bound is left; a payload that is cut short is an error |
| Protocol.ReadPacket | src/protocol/mod.rs:546-605 | For every input, schedule and handler, the result and the remaining stream are those of the reading of the byte string; a compressed packet is left where the inflater stopped, its outcome is right if every slice added output, and an outcome that shows no short read comes about in no other way; slices are only taken while output is wanted, and only what is not valid is found corrupt |
| Protocol.ReadLength | src/protocol/mod.rs:550-553 | The packet length is read from at most three bytes, leaving what it does not take |
| Protocol.ReadMarked | src/protocol/mod.rs:580-598 | The size field: negative, the zero marker, or a compressed payload |
| Protocol.HandleCompressed | src/protocol/mod.rs:592-597 | The stream is left after exactly what the inflater took, the outer bound not being discarded, with the same two directions for the outcome |
| PreCompression.PreCompressor.Call | src/defaults/sync.rs:388-399 | The first `written` bytes of the vector stay exactly the compressor's output, whenever it comes; the spare room passed is never empty |
| PreCompression.PreCompressor.Write | src/defaults/sync.rs:383-411 | Terminates with all data fed to the compressor once and in order, or with its error, or in the underflow, the last if and only if a call left exactly one byte |
| PreCompression.PreCompressor.Flush | src/defaults/sync.rs:413-440 | Terminates with the vector equal to the compressor's whole output for everything fed, nothing held back and no spare zeros left, decompressing to what was fed |
| PreCompression.GuessByLeft | src/defaults/sync.rs:404 | The guess by what is left to write: none for one byte, two up to four, from there on all but two |
| PreCompression.OneByteLeft | src/defaults/sync.rs:404-405 | A step of a compressor with a sane codec, between states it can be in, that leaves one byte of three, so that the guess underflows |
| PreCompression.StoredIsSane | src/defaults/sync.rs:388-393 | A concrete codec that gives output all along meets the codec contract, validity included |
| Sending.Compress | src/protocol/mod.rs:785-789 | The finished payload is the compressor's output for id and payload |
| Sending.WritePacket | src/protocol/mod.rs:753-840 | Success appends exactly the frame that the packet and the compressor determine and leaves everything on the wire, flushed, and nothing buffered; OverSized and the underflow leave writer and sink untouched; where nothing fails and the guess does not underflow, a packet is written if and only if it has a frame |
| Sending.WriteStored | src/protocol/mod.rs:775-783 | The uncompressed branches |
| Sending.WriteCompressed | src/protocol/mod.rs:784-819 | The compressed branch, with both size errors, decided on the real payload, before anything is written |
| Session.WireSwitches | src/defaults/sync.rs:562-564 | A threshold change anywhere in a run adds nothing to the stream, and what comes after it goes out under the new threshold |
| Session.WireSends | src/protocol/mod.rs:753-840 | A packet adds its frame under the threshold in force |
| Session.LastThreshold | src/defaults/sync.rs:562-568 | The threshold in force is the last one set, packets leaving it as it is |
| Session.ExpectedInOrder | src/protocol/mod.rs:561-575 | The expected results are what each packet's handler makes of its payload, in the order sent, threshold changes giving none |
| Session.MirrorsOne | src/protocol/mod.rs:579-601 | A receiver mirrors a threshold change if and only if its own is set when the sender's is; the values may differ |
| Delivery.SendAll | src/protocol/mod.rs:753-840 | A run of packets and threshold changes puts exactly the concatenated frames that packets and compressor determine on the wire, plain or enciphered; where nothing fails it is completed if and only if every packet has a frame, or else underflows in one that is compressed |
| Delivery.OnePacketCompresses | src/protocol/mod.rs:764-784 | Under a threshold a packet goes uncompressed if and only if its id and announced size stay below it |
| Delivery.FirstFrameCompressed | src/protocol/mod.rs:764-813 | The literal bytes of a packet sent after the threshold was set to zero |
| Delivery.SendSession | src/defaults/sync.rs:324-343 | With a switch in between, the wire is the plain frames followed by the one-shot encryption of the later ones, completed under the same condition |
| Delivery.ReceiveOne | src/protocol/mod.rs:546-605 | A frame that stands next, over the real layers: uncompressed it is read right and, if its id is known, to its end; compressed it is by a clean cut, and, if the outcome shows no short read, only by one, an announced size that is wrong showing as a payload cut short or an error; otherwise the stream stands after what the inflater took; the cut is clean if the frame was read ahead and an eager inflater can take the payload at once |
| Delivery.WholeIsClean | src/defaults/sync.rs:31-39 | Read ahead whole, a valid payload is taken by such an inflater in one slice that adds output |
| Delivery.CollectedIffHonest | src/protocol/mod.rs:758-761 | A handler that collects what a cleanly cut packet shows it gets the payload if and only if the packet announced its true size |
| Delivery.ReceiveUnknown | src/protocol/mod.rs:568-573 | An unknown id is reported with the stream at the end of the frame if and only if the payload is empty, or, compressed, the cut was clean |
| Delivery.ReceiveTyped | src/protocol/mod.rs:753-840 | A value of any serialisable type, framed under its own `size`, is read back with the stream at the end of the frame if and only if it went uncompressed or the cut was clean |
| Delivery.ReceiveAll | src/protocol/mod.rs:546-605 | Any list of packets and mirrored threshold changes, any handlers, any short reads: with clean cuts the expected results in order, and after the k-th read the stream at the end of the k-th frame; and if the results show short reads, with no others |
| Delivery.ReceiveSession | src/defaults/sync.rs:552-557 | The same across the switch, any part of the ciphertext being in transit already, when nothing has been read ahead |
| Delivery.RunSession | src/defaults/sync.rs:552-557 | A whole session between two stream providers: the wire as a function of packets, compressor and key; nothing having been read ahead at the switch, results exactly those of the sent payloads, with the condition on inflater slices needed only if something was compressed; where nothing fails it is completed if and only if every packet has a frame, or else underflows in one that is compressed |
| Delivery.SmallBitesFail | src/protocol/mod.rs:592-597 | An inflater that takes at most two bytes of the stored codec at a time never leaves the stream at the end of a compressed frame, whatever the handler and the outcome |
| Delivery.OneByteBitesFail | src/defaults/sync.rs:31-39 | One that takes a single byte at a time lets no packet get to its handler, nor to its id |
| Delivery.FailingRun | src/protocol/mod.rs:592-597 | Such a run from scratch on literal bytes, for every read capacity |
| Delivery.WholeRun | src/defaults/sync.rs:31-39 | The same packet read ahead whole, with an eager inflater: the payload comes back and the stream is at its end |
| Handshake.ReadVersion | src/primatives/handshake_version.rs:16-91 | The detection refines its reference form in all branches; the cast to i32 is never negative |
| Handshake.ReadLegacy | src/primatives/handshake_version.rs:18-60 | The legacy branch, read after read from where the one before stopped, comes to the version, or the error, that the reference form gives by position |
| Handshake.ReadPrefix | src/primatives/handshake_version.rs:63-82 | The OR-ing loop computes the weight of the prefix with bit 7 forced on, after one byte or up to four |
| Handshake.AgreesWithVarIntIff | src/primatives/handshake_version.rs:61-90 | On every canonical prefix of up to four bytes: agreement with the VarInt if and only if the length is below 128, or the first byte is not 0xFE and bit 7 is set; otherwise the same bytes are consumed and bit 7 is forced on |
| Handshake.HandshakeAlignsIff | src/protocol/mod.rs:372-389 | A first packet not mistaken for a legacy ping is handled on its payload and left at its end if and only if its length is below 128 or has bit 7 set |
| Handshake.FirstOverruns | src/protocol/mod.rs:376-381 | In the other case 128 bytes of what follows are swallowed, or the read fails |
| Handshake.LegacyPingRecognised | src/primatives/handshake_version.rs:18-54 | The ping of a 1.6 client is recognised with its data length and its data unread |
| Handshake.OldestPing | src/primatives/handshake_version.rs:17-60 | A lone 0xFE and then silence is a client of 1.3 or before, with the rest unread |
| Handshake.OlderPing | src/primatives/handshake_version.rs:19-57 | 0xFE 0x01 and then silence is one of 1.4 or 1.5, with the rest unread |
| Handshake.MalformedPing | src/primatives/handshake_version.rs:20-27 | Any other byte in the second or third place is a malformed ping |
| Handshake.OtherChannel | src/primatives/handshake_version.rs:29-43 | So is any other channel length or channel name |
| Handshake.PingRefused | src/primatives/handshake_version.rs:29-52 | A negative data length is refused, and a ping cut short anywhere in its header is a stream error |
| Handshake.LongPrefixRefused | src/primatives/handshake_version.rs:66-81 | A length that goes on after its fourth byte is oversized there |
| Handshake.ChannelName | src/primatives/handshake_version.rs:34-40 | The 22 bytes compared are the eleven characters of the channel name as big-endian 16-bit units |
| Handshake.Int16IsSigned | src/primatives/handshake_version.rs:45-46 | The data length is a big-endian number in two's complement |
| Handshake.ForceBit7IsOr | src/primatives/handshake_version.rs:63-68 | Forcing bit 7 on is what OR-ing 128 into a number does |
| Legacy.UnitsDecode | src/protocol/mod.rs:18-29 | The UTF-16 units of a string decode to that string (section 2 of RFC 2781) |
| Legacy.SurrogatePair | src/protocol/mod.rs:18-24 | Beyond 16 bits a scalar is a high and a low surrogate that carry the twenty bits above 0x10000 (section 2.1 of RFC 2781) |
| Legacy.Be16IsBigEndian | src/protocol/mod.rs:21 | A unit goes out as a big-endian u16 |
| Legacy.ResponseLayout | src/protocol/mod.rs:106-122 | The kick byte 0xFF, the length most significant byte first, then the units |
| Legacy.New13Iff | src/protocol/mod.rs:39-59 | The 1.3 response is made if and only if its text, signs included, is at most 256 units, and it carries that text in order |
| Legacy.New16Iff | src/protocol/mod.rs:82-104 | The 1.4-1.6 response is made if and only if its text, header included, is at most 32767 units, and it carries that text in order |
| Legacy.SplitsBackIff | src/protocol/mod.rs:61-71 | Splitting on the separator inverts joining if and only if no field contains it |
| Legacy.Ping13Response | src/protocol/mod.rs:39-71 | The declared length is the number of units emitted and at most 256, the whole is 3 + 2 * length bytes, and the strings are recovered if and only if none contains the section sign |
| Legacy.Ping16Response | src/protocol/mod.rs:82-122 | The same for the 1.4-1.6 response, whose fields are recovered if and only if none contains NUL |
| Legacy.Write13 | src/protocol/mod.rs:61-71 | The unit-by-unit writer emits that response |
| Legacy.Write16 | src/protocol/mod.rs:106-122 | The unit-by-unit writer emits that response |

## Left out

- Delivery.RunSession: whether the growth guess underflows on a compressed packet depends on how much input the compressor takes at each call, which is not a parameter; the run says that it did.
- Delivery.ReceiveAll: a receiver that meets a misaligned frame goes on; nothing is said about its results from there on.
- AsyncWriters.AsyncBufferedWriter.PollWrite: requires a capacity above zero; with zero the source's loop need not end (`AsyncWriters.PollWriteReturnsIff`), so no terminating method models that call.
- AsyncWriters.AsyncEncryptionWriter.PollWrite: the same.
- AsyncSwitch.AsyncDefaultWriter.PollWrite: the same.
- Inflating.Inflater.Inflate: the reader's decompression error and the end of the stream are one stream error.
- Sending.WritePacket: packets whose own `to_writer` fails, and retries after an I/O error part-way through a write, where the code makes no recovery promise; an error ends the use of the writer.
- Handshake.ReadVersion: works on a byte string, not on the reader classes; `try_read_byte` is two booleans saying whether the stream would block, and sleeping and switching the blocking mode are not modelled.
- AES and DEFLATE/zlib themselves, including the library's window size; they are an uninterpreted block function and streaming contracts.
- The async pre-compressor (src/defaults/asynchronous/tokio.rs:589-614), whose correctness rests on how the library reports pending output, and the async packet reader above the decrypting reader, which has the blocking one's form.
- futures.rs separately from tokio.rs: the same machines, the read interface taking a slice.
- `poll_shutdown`, wakers, and `Interrupted` retries.
- `Poisoned` states and the panics on switching to encryption twice: the model's `WithEncryption` requires the first state.
- usize overflow of the size sums and of buffer growth (sizes are unbounded here, except where the code subtracts).
- The per-version packet tables and designators: any predicate of known ids.
- Typestate transitions, the compression level, error names and maxima in error values.
- f32 and f64, which travel as their bit patterns; Box, Rc and Arc wrappers; strings.
- The layering of the reader traits: the nested adapters appear as one class with an outer and an inner bound.
- Tuple arities 1 to 12 appear as tuples of any length.
- The example programs and their helpers (RSA, NBT, UUID).

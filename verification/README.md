# A verified model of noxtor-cli

noxtor-cli is a peer-to-peer messenger over onion services. This project models its stateful algorithms in Dafny 4.11
and proves what they keep over every input and every run. `dafny verify dfyconfig.toml` checks all of it.

Each algorithm appears twice where the program changes things in place: once as functions on values, about which the
properties are proved, and once as a class or an array method in the program's own loop form, whose contract ties the
new state to those functions.

| file | what it models |
|---|---|
| `Bytes`, `Bits` | byte strings, big-endian numbers; bitwise and, with the power-of-two idioms |
| `Frames` | the frame header and the front of a receive buffer |
| `Peer`, `PeerTrace` | one peer slot: state machine, handshake claim, sequence numbers; every run against a session automaton |
| `PeerStream`, `PeerHold` | the frame loop: reassembly under every cut, and holding frames back over every run of a connection |
| `Receiver`, `Downloads`, `FileName` | one receiver; any number of them over one directory; the names of received files |
| `Sender`, `Transfer`, `FileAlone` | the sender, both ends joined by the frame stream, and which files survive every schedule |
| `Onion` | base32 with the wrapping accumulator, address layout, binding message |
| `Utf8`, `Clusters` | decoding in both directions, and movement over grapheme clusters said on code points |
| `Editor`, `EditModel`, `EditBuffer`, `Render`, `Paste` | the line editor: folds and edits, the same on a text of marked bytes without positions, the buffer, rendering, bracketed paste |
| `Present`, `CapTrie` | the terminal library: diff redraw against a terminal model, key-sequence trie |
| `Arena` | the secure bump arena |
| `Queue`, `Strip`, `Window` | the offline queue, removal of escape sequences, the inbound handshake limit |

Cryptography, the operating system and the random source are parameters: a seal that opens what was sealed, a hash that
is a function of all bytes fed to it, a digest of fixed length, signatures as an arbitrary predicate, and for every system
call its result. Integers are unbounded; 32-bit sequence numbers, the 32-bit base32 accumulator and `size_t` arithmetic
are written out modulo their width or with the program's own overflow guards.

## Where code and comments disagree

The model follows the code.

- The receive step closes the connection whenever the buffer was full, even when processing has just made room; its
  comment speaks of a buffer that is still full. `PeerStream.FullBufferAlwaysCloses` states both, and
  `PeerHold.DeliveredAndClosed` is a run in which the held frame is delivered, the buffer is empty, and the connection is
  closed all the same.
- File data can be taken for METADATA: a piece of exactly 305 bytes that begins with the mark. `Transfer.EndToEnd` proves
  that, with a non-zero hash, this is the only obstacle for one schedule; `FileAlone.KeptUnderEverySchedule` says it of the
  file: it survives every schedule if and only if no 305 bytes of it begin with the mark. `FileAlone.ShapedFileIsLost`
  gives a file that is lost although it is read in one piece.
- A cleaned file name is empty when the limit is one byte; `FileName.SanitizeIsSafe` has the equivalence.
- `tb_present` counts a printable code point of width zero as one column, but the terminal gives it none. The redraw is
  right when no changed cell of that kind is directly followed by a changed cell (`Present.PresentIsRight`); where a glyph
  follows, its run lands too far left and the last column stays as it was (`Present.ClashGoesWrong`, with the equivalence
  in `Present.RightExactly`; `Present.MarkThenLetter` is a screen of two cells).
- The trie does not go back to a shorter key sequence once a longer one has been entered (`CapTrie.ShorterEntryIsLost`).
- `arena_destroy` clears at most 256 MB (`Arena.DestroyClears`), though the header promises the whole usable area;
  `Arena.SecretSurvives` is a run after which a written byte is still there.
- Moving right over a cluster and left again need not return to the start: regional indicators are paired forwards from
  the cursor and backwards from the cursor (`Clusters.ThereAndBack` has the exact condition).
- The state table has a file-start and a rate-limit event that no code outside the tests raises; the model admits both, so that the
  theorems about runs cover them.

## Model

| member | source | states |
|---|---|---|
| Frames.DecodeEncodeHeader | src/network.c:1917-1965 | Decoding an encoded header, whatever follows it, gives the header back exactly when magic, type and length are acceptable |
| Frames.EncodeDecodeHeader | src/network.c:1934-1965 | Every accepted wire header is the encoding of what it decodes to |
| Frames.ParseEncoded | src/event_loop.c:111-131 | A complete frame at the front is found and the bytes after it do not matter |
| Frames.ParsePartial | src/event_loop.c:111-131 | A strict prefix of a frame is neither taken for a frame nor for garbage |
| Frames.ParseIsFaithful | src/event_loop.c:111-131 | A buffer in which a frame is found is that frame's encoding followed by the rest |
| PeerStream.ProcessWhole | src/event_loop.c:111-155 | On any whole frames and a partial one the loop dispatches exactly those up to the first held or closing one, in order; the rest and the partial one stay, unless the connection was closed |
| PeerStream.ProcessSplit | src/event_loop.c:111-155 | Reading any stream of well-formed frames in two parts is reading it in one, logs joined, unless the first part closed the connection |
| PeerStream.Reassembly | src/event_loop.c:989-1028 | For every list of well-formed frames and every way of cutting its encoding into reads, what was read is m whole frames and a strict prefix of the next; of these exactly the frames up to the first held or closing one are dispatched, in order, and all the rest is in the buffer unless the connection was closed |
| PeerStream.ReassemblyInFlow | src/event_loop.c:989-1028 | If no frame is held back or closes the connection, all m are dispatched and only the prefix remains |
| PeerStream.CutsDoNotMatter | src/event_loop.c:111-155 | Any beginning of any such stream, in any pieces while the connection lasts, gives the state and log of one read of the whole |
| PeerStream.CutsInFlow | src/event_loop.c:111-155 | A whole stream in which nothing is held or closes is dispatched whole, whatever the cuts |
| PeerHold.NothingLost | src/event_loop.c:111-155 | Over every run of one connection, with inputs of any kind in any order from any state: the frames taken are a beginning of the stream in order, state and log are those of a slot without a buffer that is handed these frames, and everything else received is in the buffer unless the connection was closed |
| PeerHold.HeldUntilSession | src/event_loop.c:132-155 | In every run, whatever the bytes, no text or file frame is taken before there is a session, and the buffer affects nothing else |
| PeerHold.NothingWaits | src/event_loop.c:829-849 | With a session, after a read or a drain no complete frame is left |
| PeerHold.HoldLosesNothing | src/event_loop.c:829-849 | While the user is being asked, and afterwards, however reads, drains, sweeps and address-book changes interleave with the accepting answer: nothing is taken before it, then everything in order from the first frame on, and only a strict prefix of the next frame remains |
| PeerHold.HoldIsInvisible | src/event_loop.c:829-849 | With reads and drains in any order around the answer, state and log are those of a session that existed from the start |
| PeerHold.DeliveredAndClosed | src/event_loop.c:994-1006 | A run in which a full buffer is delivered and emptied and the connection is closed all the same |
| PeerStream.FullOnlyWhenHeld | src/event_loop.c:132-155 | After processing the buffer is full if and only if it was full and its front frame is held back |
| PeerStream.RoomInSession | src/event_loop.c:111-155 | With a session the buffer is never full after processing |
| PeerStream.FullBufferAlwaysCloses | src/event_loop.c:994-1006 | The full-buffer branch always ends idle; the buffer is still full exactly when the front frame is held back |
| PeerStream.PeerSession.ProcessPeerFrames | src/event_loop.c:111-535 | The loop over the receive array computes the specified run of the slot |
| PeerStream.PeerSession.OnReadable | src/event_loop.c:1008-1028 | Appending received bytes and processing is the specified reaction to a read |
| PeerTrace.DispatchSimulates | src/event_loop.c:156-535 | One frame of any type keeps the slot invariant and extends the log only as the session automaton allows |
| PeerTrace.ReactSimulates | src/state_machine.c:130-318 | The same for every kind of input: reads, full buffer, drain, user answer, loss, dial, accept, timeout, address-book change, frames sent, file start and end |
| PeerTrace.FreshInv | src/state_machine.c:130-318 | The slot at the start of the program satisfies the invariant and stands at the automaton's start |
| PeerTrace.RunSimulates | src/event_loop.c:541-1028 | The same for every run of a slot |
| PeerTrace.AtMostOnce | src/event_loop.c:462-528 | In every run, of two frames delivered in one session the later carries a number larger by exactly the deliveries in between, modulo 2^32 |
| PeerTrace.SessionsStartAtZero | src/event_loop.c:298-357 | The first delivery of a session carries number 0 |
| PeerTrace.AutoSessionsAreAuthentic | src/event_loop.c:237-371 | In every run an automatic session has a claim of the right length and version whose signature verifies under the key of the claimed address; if its connection was made by a dial, that dial's target is the claimed address; and the handshake key is the non-zero key which the book at the start, an address-book change or an accepted question gave that address and nothing has changed since |
| PeerTrace.LoggedInputs | src/event_loop.c:541-1028 | Every dial, accept and address-book change in a log is an input of the run |
| PeerTrace.FlushOnlyOnceAndAuthentic | src/event_loop.c:497-515 | In every run the offline queue is flushed only inside an automatic session with such a claim, for that address, and at most once in it |
| FileName.SanitizeIsSafe | src/file_transfer.c:31-81 | The cleaned name is short, whitelisted, without adjacent or leading dots, and empty exactly for the one-byte limit |
| FileName.SanitizeIsFixpoint | src/file_transfer.c:31-81 | Cleaning again, with any random number, changes nothing |
| FileName.SanitizeKeepsSafeNames | src/file_transfer.c:31-81 | A non-empty safe short name is kept |
| FileName.SanitizeTouchesOnlyOffenders | src/file_transfer.c:31-81 | Every allowed character of the base name that is not a leading dot or next to a dot survives at its place |
| FileName.LaterChecksPass | src/file_transfer.c:493-518 | The separator and truncation checks made later pass for every peer-supplied name |
| FileName.SanitizeFilename | src/file_transfer.c:31-81 | The in-place passes over the NUL-terminated buffer compute that name |
| Receiver.ApplyKeepsInv | src/file_transfer.c:553-775 | One event keeps: an active transfer has on disk exactly the bytes counted and hashed, fewer than announced; only the file in progress is touched |
| Downloads.ReceiverSafety | src/file_transfer.c:566-821 | Over every run of any number of slots on one directory: each active transfer has on disk exactly the bytes counted and hashed, fewer than announced, in a file of its own; the directory is what it was, plus the verified files, plus the files in progress |
| Downloads.EveryTransferHasOrigin | src/file_transfer.c:584-640 | Every transfer in progress was started by a METADATA event of its slot, carries its name, size and hash, and has stored exactly what was delivered since |
| Downloads.KeptAsAnnounced | src/file_transfer.c:700-757 | A file kept was announced by an earlier METADATA of the same slot: its size and hash are that message's, its content is the first so many bytes delivered since, the hash over size and content agrees, and in between the slot started, dropped and kept nothing |
| Downloads.InactiveMeansVerified | src/file_transfer.c:700-775 | Once no slot is receiving, the new files are exactly the files kept, each with the size and hash its METADATA announced |
| Downloads.KeptFilesMeaning | src/file_transfer.c:700-757 | A name is among the kept files exactly when some event kept it, and has the content that event kept |
| Receiver.FileReceiver.HandleRx | src/file_transfer.c:553-775 | The handler on the struct's fields computes the specified step |
| Receiver.FileReceiver.Sweep | src/event_loop.c:706-731 | The chunk timeout unlinks and zeroes exactly an expired active transfer |
| Receiver.FileReceiver.CleanUp | src/file_transfer.c:791-821 | Clean-up removes a half-received file and zeroes the struct |
| Sender.MetadataRoundTrip | src/file_transfer.c:278-292 | The receiver reads back the announced name, size and hash |
| Sender.StepKeepsInv | src/file_transfer.c:347-466 | One call with any short read, partial write or retry keeps the sender's invariant |
| Sender.ReachableInv | src/file_transfer.c:347-466 | Every state after METADATA and any schedule satisfies it |
| Sender.SenderStream | src/file_transfer.c:347-466 | The bytes written are a prefix of frames with consecutive numbers that carry METADATA and consecutive pieces of the file; sent never passes the size; a finished transfer has written them all |
| Sender.SenderFinishes | src/file_transfer.c:347-466 | A transfer whose calls do not fail is never aborted and finishes after a number of successful calls linear in the file size, however small the reads and writes |
| Sender.FileSender.HandleTx | src/file_transfer.c:347-466 | The handler on the struct and its buffer computes the specified step |
| Transfer.FilesFlow | src/event_loop.c:517-528 | The sender's frames pass the receiving slot and do to its file state what their plaintexts do |
| Transfer.DeliverFrames | src/event_loop.c:111-155 | Any arrival pattern of n frames and part of the next leaves that part in the buffer and the n plaintexts processed |
| Transfer.EndToEnd | src/file_transfer.c:347-757 | For every file, schedule and arrival pattern, a finished transfer leaves the identical verified file if and only if the hash is not zero and no piece is shaped like METADATA; both sides are then done |
| Transfer.InStep | src/file_transfer.c:347-757 | At every moment in between, the receiver has stored exactly what the sender counts as sent, and the buffer holds the begun frame: both finish together |
| Transfer.KeptLessWhenShaped | src/file_transfer.c:584-600 | After a METADATA-shaped piece nothing kept is as long as the announced file |
| FileAlone.PiecesRun | src/file_transfer.c:347-466 | The sender can read a file in any pieces that make it up |
| FileAlone.KeptUnderEverySchedule | src/file_transfer.c:584-621 | A file is kept under every schedule and arrival pattern if and only if its hash is not zero and no 305 bytes of it begin with the mark |
| FileAlone.LosingRun | src/file_transfer.c:584-621 | Otherwise a schedule after which the sender has finished and nothing keeps the file, however its bytes arrive |
| FileAlone.ShapedFileIsLost | src/file_transfer.c:584-587 | A concrete file that is read in one piece, sent to the end and never kept |
| Onion.AccumulatorStep | src/crypto.c:394-422 | One round of the wrapping 32-bit accumulator yields the next byte of the exact value |
| Onion.OnionB32Decode | src/crypto.c:394-422 | The loop fails exactly outside the alphabet, ends with no spare bits and yields the exact value |
| Onion.DecodeEncodeBody | src/crypto.c:394-422 | Decoding inverts the standard encoding |
| Onion.EncodeDecodeBody | src/crypto.c:394-422 | Encoding inverts decoding on the accepted alphabet |
| Onion.AcceptedIffAddressOfKey | src/crypto.c:435-491 | The accepted addresses are exactly the addresses of public keys, with the key they were made from |
| Onion.AddressesAreInjective | src/network.c:65-74 | Two distinct accepted addresses never give the same key |
| Onion.BindMessageIsInjective | src/crypto.c:425-433 | The signed message determines both the address and the static key |
| Utf8.DecodeEncoded | src/linenoise.c:199-235 | Decoding inverts the encoding of section 3 of RFC 3629, whatever follows |
| Utf8.DecodePrevEncoded | src/linenoise.c:274-287 | Decoding backwards does so whatever stands before and after |
| Clusters.NextMovesOneCluster | src/linenoise.c:351-396 | From a code-point boundary of any encoded text, moving right ends at the boundary of the cluster given by a rule on code points; `Utf8.NextCharLenLoop` is the loop |
| Clusters.ClusterUnique | src/linenoise.c:351-396 | That rule determines the cluster |
| Clusters.PrevMovesOneCluster | src/linenoise.c:295-347 | Moving left ends at the last code point not bound to its predecessor, or at the first of a pair of regional indicators; `Utf8.PrevCharLenLoop` is the loop |
| Clusters.ThereAndBack | src/linenoise.c:295-396 | Right and left again returns to the start exactly when the cluster is a plain flag, or its start is bound to nothing and does not follow a regional indicator with another |
| Editor.MoveBounds | src/linenoise.c:1117-1143 | A movement over a fold or a cluster makes progress and stays in the text |
| Editor.DoKeepsInv | src/linenoise.c:1517-1692 | Every command at any cursor position keeps the text within capacity, the cursor in the text, and the folds sorted, disjoint, non-empty, in range and at most sixteen |
| Editor.EditsKeepInv | src/linenoise.c:1517-1692 | The same over every sequence of commands |
| Editor.InsertKeepsHidden | src/linenoise.c:1187-1201 | An insertion keeps, in order, exactly the folds it is not strictly inside, each with its text |
| Editor.RemoveKeepsHidden | src/linenoise.c:1205-1222 | A removal keeps, in order, exactly the folds it does not overlap, each with its text |
| Editor.SwapKeepsHidden | src/linenoise.c:2023-2042 | A swap changes no folded text |
| EditModel.DoRefines | src/linenoise.c:1554-1692 | Every command does to the line what it does to a text of marked bytes before and after the cursor, which has no positions, lengths or fold list |
| EditModel.EditsRefine | src/linenoise.c:1517-1692 | The same over every sequence of commands: the line ends where the run of the model does |
| EditModel.HiddenAfterEdits | src/linenoise.c:1187-1222 | The texts hidden after any commands are the folded runs of the model's final text |
| EditModel.PasteHides | src/linenoise.c:1821-1904 | A folded paste hides exactly the pasted text, in its place among the folds the cursor was not strictly inside |
| EditModel.StepOrigin | src/linenoise.c:1554-1692 | After one command of any kind, what is hidden was hidden before or is the text of that folded paste |
| EditModel.HiddenOrigin | src/linenoise.c:1517-1692 | After every sequence of commands each hidden text was hidden at the start or is exactly the text of a folded paste |
| EditBuffer.AddFold | src/linenoise.c:1146-1159 | The sorted insertion loop computes the specified fold list |
| EditBuffer.FoldsAfterInsert | src/linenoise.c:1187-1201 | The in-place adjustment loop equals the specification |
| EditBuffer.FoldsAfterDelete | src/linenoise.c:1205-1222 | The in-place adjustment loop equals the specification |
| EditBuffer.LineState.Grow | src/linenoise.c:1517-1549 | Growth, from any capacity including zero, succeeds exactly up to the maximum and changes no visible state |
| EditBuffer.LineState.InsertBytes | src/linenoise.c:1554-1571 | Insertion into the byte buffer succeeds exactly when it fits and is the specified insertion |
| EditBuffer.LineState.DeleteForward | src/linenoise.c:1651-1659 | In-place deletion is the specified one |
| EditBuffer.LineState.DeleteBackward | src/linenoise.c:1663-1673 | In-place backspace is the specified one |
| EditBuffer.LineState.DeleteWordBackward | src/linenoise.c:1677-1692 | In-place word deletion is the specified one |
| EditBuffer.LineState.SwapAtCursor | src/linenoise.c:2023-2042 | The three copies of Ctrl-T are the specified exchange, refused at folds and for clusters over 32 bytes |
| EditBuffer.LineState.KillWholeLine | src/linenoise.c:2158-2163 | Ctrl-U empties the line and its folds |
| EditBuffer.LineState.KillToEnd | src/linenoise.c:2164-2169 | Ctrl-K removes the text after the cursor and the folds it overlaps |
| EditBuffer.LineState.MoveLeft | src/linenoise.c:1617-1622 | The cursor moves back one fold or cluster, in mask mode one cluster |
| EditBuffer.LineState.MoveRight | src/linenoise.c:1625-1630 | The cursor moves on one fold or cluster, in mask mode one cluster |
| Render.RenderShows | src/linenoise.c:1049-1113 | Every byte no fold hides is shown at its column, and each fold as its marker |
| Render.ColumnsInOrder | src/linenoise.c:1085-1106 | The cursor translation is in range and monotone, separates positions outside folds, and sends a cursor inside a fold to the end of its marker |
| Render.PrefixIsRendered | src/linenoise.c:1085-1106 | For a cursor not strictly inside a fold, what is shown before it is the rendering of the text before it |
| Render.MarkerFits | src/linenoise.c:1008-1019 | The marker and its terminator always fit the 64-byte field |
| Render.DecimalReadsBack | src/linenoise.c:1008-1019 | The number printed in a marker reads back as the number of lines or bytes hidden |
| Render.LinesSplit | src/linenoise.c:993-999 | A line feed separates lines: the count of the whole is the sum of the counts of both sides |
| Render.CountLines | src/linenoise.c:993-999 | The loop counts exactly those lines |
| Render.RenderFolds | src/linenoise.c:1024-1042 | On a valid line no fold is skipped, and none is used for an empty or masked line |
| Render.RenderLength | src/linenoise.c:1071-1078 | The precomputed length is exact |
| Render.RenderBuffer | src/linenoise.c:1049-1113 | The allocated buffer holds the rendering and its terminator, and the cursor its column |
| Paste.BodyIsBeforeFirstMarker | src/linenoise.c:1834-1865 | A terminated stream yields its bytes before the marker exactly when the marker does not stand earlier |
| Paste.ScanStep | src/linenoise.c:1844-1859 | Each byte completes, extends or restarts the only open match: no failure table is needed |
| Paste.ReadPaste | src/linenoise.c:1804-1865 | The reading loop collects exactly the body, reports overflow exactly when it is too long, and reads exactly to the end of the marker |
| Paste.NormalizeHasNoCr | src/linenoise.c:1877-1889 | The normal form has no CR, and text without CR is its own |
| Paste.NormalizeSplits | src/linenoise.c:1877-1889 | Cutting a text anywhere but inside CR LF cuts its normal form |
| Paste.LineEndsDoNotMatter | src/linenoise.c:1877-1889 | A text copied with LF, CR or CR LF line ends arrives the same |
| Paste.NormalizeInPlace | src/linenoise.c:1877-1889 | The in-place loop computes the normal form |
| Paste.PasteIsAllOrNothing | src/linenoise.c:1821-1904 | The normalised text goes in whole at the cursor if and only if the bytes received fit; otherwise nothing changes |
| Paste.EditPaste | src/linenoise.c:1821-1904 | The operation on the line state is the specified paste |
| Present.CellRedrawn | include/termbox2.h:2424-2475 | Whatever was on screen, after one round the columns of the cell show it, nothing to its left changed and the rest of the row is in order |
| Present.RowRedrawn | include/termbox2.h:2422-2476 | The same for a row from any column on, if no changed cell of width zero is directly followed by a changed cell |
| Present.PresentIsRight | include/termbox2.h:2411-2482 | If the screen shows the front buffer and no row has such a pair, then after the call the screen shows every cell of the back buffer, the front buffer equals it, and the state is in order for the next call |
| Present.DiffEqualsFull | include/termbox2.h:2411-2482 | From any two screens in order, the current and a cleared one say, the same back buffer gives the same glyph in every cell that has one, and without cells of width zero the same screen |
| Present.UnchangedRowIsFree | include/termbox2.h:4023-4035 | Nothing is sent for an unchanged row |
| Present.RunDisplaced | include/termbox2.h:2424-2475 | Behind a cell of width zero a run of changed cells lands too far left and its last column is not drawn, up to a double-width cell, where the cursor is placed anew |
| Present.ClashGoesWrong | include/termbox2.h:2411-2482 | Where a changed cell of width zero is directly followed by changed cells of which one has a glyph, one column, named beforehand, keeps its old glyph or half of one, so the row is wrong unless that column was right already |
| Present.RightExactly | include/termbox2.h:2411-2482 | On screens where no such column happens to be right already, the redraw is right if and only if no changed cell of width zero is directly followed by a changed cell |
| Present.MarkThenLetter | include/termbox2.h:2424-2475 | A screen that goes wrong: a mark and a letter over two blanks leave the letter in the first column |
| Present.Termbox.PresentCell | include/termbox2.h:2424-2475 | One round of the loop on the buffers is the specified one |
| Present.Termbox.PresentRow | include/termbox2.h:2422-2476 | The row loop is the specified one |
| Present.Termbox.PresentFrame | include/termbox2.h:2411-2482 | The two nested loops emit the specified commands and leave the specified front buffer |
| CapTrie.NeedMoreExactly | include/termbox2.h:3593-3614 | More input is asked for if and only if the whole input is a proper beginning of an added sequence and not itself added |
| CapTrie.FoundExactly | include/termbox2.h:3593-3614 | A key is reported if and only if the longest input prefix shared with an added sequence was itself added, and it is the first key added for it |
| CapTrie.FirstKeyMeans | include/termbox2.h:3001-3010 | Of equal sequences the first one added wins |
| CapTrie.ShorterEntryIsLost | include/termbox2.h:3013-3042 | A shorter key is not recognised once a longer one has been entered |
| CapTrie.Trie.Add | include/termbox2.h:2968-3011 | After any series of adds the nodes represent exactly the list of sequences; a collision is reported exactly for a repeated one |
| CapTrie.Trie.Find | include/termbox2.h:3013-3042 | The depth is the longest input prefix that some added sequence begins with; the node is a leaf exactly when that prefix was added |
| CapTrie.Trie.ExtractCap | include/termbox2.h:3593-3614 | The outcome is the one the plain list determines |
| Bits.PowerTest | src/arena.c:83-84 | p & (p - 1) is zero exactly for the powers of two |
| Bits.MaskRoundsDown | src/arena.c:89 | x & ~(p - 1) rounds down to a multiple |
| Arena.PageAlignExactly | src/arena.c:80-90 | Rounding gives the least page multiple, and signals an error exactly when the page size is no power of two or no 64-bit multiple is large enough |
| Arena.InitIsValid | src/arena.c:178-372 | A mapping is used exactly when the layout fits and one is given, and the arena is made exactly when it can be protected; it is then valid, fork and dump flags included, with the least page multiple that holds the request and the canary |
| Arena.AllocGranted | src/arena.c:381-442 | A request is granted exactly when it is not empty and, rounded up to 16, fits |
| Arena.StepRefines | src/arena.c:381-727 | Every allocation, in-block write and restore keeps validity and the canary, and acts on the blocks as on a stack of independent byte strings: new blocks are zero, a write changes one block, a restore pops |
| Arena.RunsAreSafe | src/arena.c:381-727 | No run aborts and every run ends valid |
| Arena.BlockIsSound | src/arena.c:102-135 | Every block is 16-aligned, inside the usable part, and clear of the canary and the guard pages |
| Arena.BlocksAreDisjoint | src/arena.c:102-135 | Two blocks never overlap |
| Arena.RestoreUndoes | src/arena.c:657-727 | Save, any run above the mark, restore: the arena is the same byte for byte |
| Arena.DestroyClears | src/arena.c:579-587 | Everything is cleared exactly when there is nothing beyond 256 MB |
| Arena.SecretSurvives | src/arena.c:579-587 | A run of allocations and a write after which a byte is still in the memory that is handed back |
| Arena.SecureArena.Initialise | src/arena.c:178-372 | The struct and its memory become the specified arena; a request refused before the mapping leaves it as it was, a failure after it empties it |
| Arena.SecureArena.CheckCanary | src/arena.c:480-511 | The check passes exactly on a valid struct with its canary in place |
| Arena.SecureArena.Allocate | src/arena.c:381-442 | Allocation on the struct is the specified one |
| Arena.SecureArena.RestoreTo | src/arena.c:669-727 | Restore wipes and resets exactly as specified |
| Arena.SecureArena.Destroy | src/arena.c:529-629 | An empty struct is ignored, a broken one aborts, and otherwise the memory is cleared and the struct emptied, with an abort afterwards exactly for a damaged canary |
| Strip.StrippedIsClean | src/frontend.c:48-94 | The result is a subsequence free of ESC, DEL and C0 except TAB, LF and CR |
| Strip.UnchangedExactly | src/frontend.c:48-94 | Text comes out unchanged if and only if it is clean |
| Strip.StripTwice | src/frontend.c:48-94 | The function is idempotent |
| Strip.CleanPrefix | src/frontend.c:88-90 | Clean text in front stays and does not affect what follows |
| Strip.CsiVanishes | src/frontend.c:54-60 | A CSI sequence is removed whole |
| Strip.StringVanishes | src/frontend.c:61-76 | A terminated OSC or DCS string of at most 256 bytes is removed whole |
| Strip.StringLimit | src/frontend.c:61-76 | Of a longer one exactly 256 bytes are removed |
| Strip.StripAnsi | src/frontend.c:48-94 | In place equals out of place on every NUL-terminated string; the bytes after the new terminator are untouched |
| Queue.AcceptedComesBack | src/database.c:549-618 | Every accepted text passes the size filter and comes back byte for byte; a longer one would not pass |
| Queue.PassConserves | src/database.c:677-797 | Sent, then still waiting, is what was waiting, in order, for every table and any send failures; at most a batch is sent |
| Queue.PassSparesOthers | src/database.c:677-797 | The rows of other recipients stay as they are |
| Queue.PassFinishes | src/database.c:677-797 | If the batch is large enough, something is left waiting exactly when a send failed |
| Queue.BatchIsPass | src/database.c:677-797 | Collecting a batch, sending and deleting by id is the one-pass specification |
| Queue.RunConserves | src/database.c:549-797 | Over every run of single and long messages and flushes, with any insertion and send failures, delivered then waiting equals waiting at the start then accepted, for each recipient |
| Queue.StepLedger | src/database.c:549-797 | One event of any kind, rollbacks included, does to a recipient's waiting texts what it does to a plain list; what is sent is its beginning |
| Queue.RunFollowsLedger | src/database.c:549-797 | The same over every run: the waiting texts are the list's, and the texts delivered are those that left it at its front |
| Queue.RollbackUndoes | src/database.c:625-653 | Rolling back as many rows as were added restores the table, but for rows added for others |
| Queue.ChunksConcat | src/stdin_handler.c:38-56 | The parts of a long message concatenate to it and each has 1 to 4000 bytes |
| Queue.SplitsExactly | src/stdin_handler.c:38-56 | A part ends inside a character exactly when 4000 bytes in a row are continuations |
| Queue.NextChunkSize | src/stdin_handler.c:38-56 | The backing-up loop computes the part size |
| Queue.Database.QueueMessage | src/database.c:549-618 | A row is inserted exactly for a text of at most 4095 bytes that the database takes |
| Queue.Database.RollbackLast | src/database.c:625-653 | The newest rows of the recipient are deleted; a count below one is refused |
| Queue.Database.ProcessQueue | src/database.c:677-797 | The batch and send loops leave the specified table, send the specified texts and report failure exactly for a failed send |
| Queue.Database.QueueSegmented | src/stdin_handler.c:304-340 | All parts of a long message are queued in order, or the table is as before |
| Window.AtMostTen | src/event_loop.c:895-913 | In every run with a clock that does not go back, at most five handshakes start in a window and at most ten in any sixty seconds |
| Window.WindowsApart | src/event_loop.c:895-913 | Each handshake lies in its window, and windows begin at least sixty seconds apart |
| Window.TenIsReached | src/event_loop.c:895-913 | Ten within sixty seconds does happen |
| Window.InboundLimiter.Accept | src/event_loop.c:895-951 | The counters change as specified |

## Left out

- Noise handshake and session cryptography (src/noise.c), libsodium, SQLite, Tor: abstract functions and tables; a failed decryption leaves the nonce unchanged.
- The Tor child process, control socket, SOCKS5, epoll bookkeeping and deadlines in src/network.c and src/event_loop.c: input and output only.
- Allocation, mlock, fsync, unlink and close failures: assumed to succeed or folded into one abort outcome; the partial-write loop of `write_to_file` is one outcome per chunk.
- The user's trust decision: the token that matches an answer to its prompt is one boolean, and the wording of prompts is not modelled.
- Text sent by the user while a file frame is pending, and the content of handshake messages: not modelled; frames sent advance the slot's number, and the sender owns the channel during a transfer.
- Wiping of session memory when Tor dies, other than the slot clean-up: not modelled.
- `Present`: attributes are opaque numbers, the bytes of escape sequences are commands, cells hold one code point (no extended clusters), back cells equal to the internal invalid marker and the very first frame's pretended attributes are excluded.
- `Utf8`: the tables of combining and emoji ranges are those the grapheme functions consult; display widths of the editor are not modelled.
- `EditBuffer`: refresh, hints, completion and history are not modelled; deletion and paste are modelled between refreshes.
- Queue.Database.ProcessQueue: deletions succeed, and no other thread changes the table while a message is being sent.
- Queue.RunConserves: runs without rollbacks, which take texts back (`Queue.RunFollowsLedger` has them); recipients are identified by their keyed hash; two recipients with the same hash would share a queue.
- Present.RightExactly: rows in which a changed cell of width zero is followed by changed cells of width zero only are not decided, nor is a stale column that happened to be right.
- Paste.BodyIsBeforeFirstMarker: streams that end without the marker lose a partly matched one at the end; `Paste.Body` says so, and no more is claimed about them.
- Arena.InitIsValid: whether the kernel honours the advice calls is one outcome each, and the locked flag is not modelled.
- Onion signing, contact and history tables, seccomp, Landlock, log output, terminal raw mode and terminfo parsing: they would only add tables or easy members.

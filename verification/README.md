# LedgerKeePass, modelled and proved in Dafny

LedgerKeePass keeps KeePass database keys on a Ledger device. A device application stores up to
eight 32-byte keys (or derives one from a name) and hands a key out, encrypted for the caller, only
after its user approved; a host library builds the commands, carries them over USB HID reports or a
TCP stream, and decrypts the answer. This project models both programs and proves what they promise
together. `dafny verify dfyconfig.toml` checks everything.

## How it is built

Both programs change memory in place, and so do the classes here. Each method is proved against a
small specification, and the promises of the system are lemmas about the specifications.

| file | what it models |
|---|---|
| `Wrappers.dfy`, `Bytes.dfy`, `BitVectors.dfy`, `Results.dfy` | optional values; bytes, bit operations, byte orders; their agreement with the C operators; result codes and status words |
| `Usb.dfy`, `LedgerDeviceUsb.dfy` | fragmentation and reassembly of USB messages; the loops of `send` and `read` over their buffers |
| `LedgerDeviceTcp.dfy` | length-prefixed frames over a stream socket |
| `LedgerAnswer.dfy`, `LedgerClient.dfy`, `Kpl.dfy` | the answer buffer, command building over either transport, the public operations |
| `Curve.dfy`, `X25519Device.dfy`, `KeyExchange.dfy` | X25519 of RFC 7748; the device's in-place version; encryption, decryption and why they undo each other |
| `Storage.dfy` | the slot storage in flash memory, power loss |
| `App.dfy`, `AppProperties.dfy`, `Screen.dfy` | the application as a state machine, what holds over every run, and the approval screen |
| `TwoRuns.dfy` | what the messages tell about a key that was not handed out |
| `Protocol.dfy` | the protocol in bytes: commands, answers, and what the host makes of them, without the model's own tables and encodings |
| `Device.dfy` | the application's memory: the shared command buffer, the static argument structs, the screen lines, the flags; every handler and callback refines a step of `App` |
| `Wire.dfy` | the replies on their way to the host over either transport, and what a call reads of them |
| `EndToEnd.dfy`, `Histories.dfy` | host and device together: one call, whatever is still on its way or on the approval screen; what any run leaves in the slots; whole histories of calls |
| `Session.dfy` | the methods of both programs composed over one lasting connection |

The state machine of `App` knows a map from slots to keys and one pending approval. The class
`Device.Device` knows a bitfield, an array of keys, a callback and argument structs that outlive it.
Its `Valid()` says how one stands for the other and what the screen shows, and every method's
`ensures` names the step of the state machine it takes. What a step, a command or an answer is in bytes
is stated apart, in `Protocol` and in the lemmas named `...InBytes`.

Foreign code is a parameter: `Curve.Crypto` bundles curve multiplication, BLAKE2b, SHA-256 and
BIP-32 derivation as arbitrary functions, and random numbers are arguments. That the order of two
curve multiplications does not matter is the hypothesis `KeyExchange.Commutes`; modular
exponentiation meets it (`KeyExchange.ModExpCommutes`).

What is assumed of the device's SDK and the host's libraries: with `IO_ASYNCH_REPLY`, `io_exchange`
sends nothing; the command buffer has 260 bytes (so the length check at app/src/main.c:51 never
fails); `INVALID_PARAMETER` is 2 and `EXCEPTION_SECURITY` is 4; the buttons of the approval screen
act only while it is shown; `crypto_scalarmult` fails exactly on the all-zero result; the peer frames
its replies as the host frames its commands.

## Promises that hold only under a condition

- "Each command gets one reply or is dropped by a reset": exactly when no command asking for approval
  arrives while one is pending (`AppProperties.OneReplyPerCommandIff`); otherwise the first is never
  answered (`AppProperties.InterruptedApprovalIsNeverAnswered`).
- "A rejected command leaves the pending approval alone": except, exactly, that a name request with
  an unprintable name replaces the caller's public key of a pending name approval
  (`AppProperties.AnsweredCommandKeepsPendingIff`, `AppProperties.RejectedNameReplacesCaller`).
- "A call hears its own reply, or times out": whatever the user and the way do, exactly when no
  earlier reply is unread and no earlier approval is on the screen (`EndToEnd.HearsOwnIff`); in any
  single case, exactly when nothing else is the oldest to be read (`Wire.OwnReplyIff`). The host can
  tell: it holds as long as no call since the connection timed out (`Histories.QuietWhileAnswered`).
  Otherwise a store the user refuses may report success
  (`Histories.LateApprovalIsTakenForTheNextStore`), and a key request may report success with a key
  unmasked by the wrong key stream (`EndToEnd.LateKeyIsGarbledIff`).
- "After a failed call the next one starts afresh": over USB a reply refused for its length makes as
  many later reads fail as it had further reports, then the way is in step again
  (`Wire.UsbBackInStep`); over TCP its bytes are taken for the next length (`Wire.TcpOutOfStep`).
- "Host and device agree on whether a key was stored, or the slots erased": the device commits first
  and replies afterwards, so given the first promise, exactly unless a reply to a store or erasure
  carried out is lost (`EndToEnd.StoreEndToEnd`, `EndToEnd.EraseEndToEnd`;
  `EndToEnd.StoredButTimedOut`).
- "A reply that arrives over TCP is received": exactly when its length and its bytes come in one
  `recv` each (`LedgerDeviceTcp.TcpReceiveIff`); one that comes in pieces is reported as a timeout
  (`LedgerDeviceTcp.SplitReplyIsLost`).
- "`send` succeeded, so the reports were written": exactly when no write returned an error
  (`LedgerDeviceUsb.AllAcceptedIff`). `hid_write`'s error result is compared as an unsigned number
  and goes unseen (`LedgerDeviceUsb.FailedWritesGoUnseen`).
- "Only an approved release tells anything about a key": a release that fails after its approval
  leaves the plain key in the command buffer, where a command shorter than it announces reads it
  (`TwoRuns.FailedReleaseShows`) or stores part of it (`TwoRuns.FailedReleaseIsStored`). It holds as
  long as no command takes up what is left of the key (`TwoRuns.KeyDoesNotShow`), which is exactly
  when the command does the same for every key (`TwoRuns.TakesIff`); its answer alone tells something
  exactly when it is a name request whose known bytes are printable (`TwoRuns.AnswerTellsIff`). When
  no release was approved it holds whatever the commands (`TwoRuns.WithheldKeyDoesNotShow`).
- "The device's X25519 is RFC 7748's": for every multiplication primitive exactly when the point's
  top bit is clear (`X25519Device.FollowsRfcIff`); every computed public key is such a point.
- "A store survives power loss whole": given that one flash write is atomic. Without that, exactly
  when the slot is empty or the keys differ in at most one byte (`Storage.TearingIsHarmlessIff`), and
  an erasure exactly when no set slot holds a key other than zero (`Storage.TornEraseIsHarmlessIff`).

Where protocol.md and the code disagree, the code is followed: STORE_KEY carries the 32-byte key
(protocol.md says no data), and an empty slot is answered with 0x6821 (protocol.md says 0x6802).

## Model

| member | source | states |
|---|---|---|
| Histories.GetKeyEndToEnd | libkpl/src/kpl.cpp:111-158 | After every history of calls, given up or not, with presses, resets, power losses and late replies during and between them, the outcome of `getKey` in every case: what it makes of an earlier reply if one is ahead of its own, and else command or reply lost, bad slot, empty slot, refusal, reset, failed curve primitive, or exactly the key last committed to the slot |
| Histories.SuccessMeansApprovedAndCommitted | libkpl/src/kpl.cpp:141-158 | If nothing is ahead of its own reply and `getKey` reports success, the user approved that request and the key is the one last committed, for all ephemeral keys |
| Histories.QuietWhileAnswered | libkpl/src/ledger_device_usb.cpp:126-135 | After every history in which no call timed out, no earlier reply is unread and no earlier approval is on the screen |
| Histories.LateApprovalIsTakenForTheNextStore | libkpl/src/kpl.cpp:97-109 | A store left on the screen until its call timed out, then approved: the next store, refused by the user, reports success, and its slot is unchanged |
| Histories.InStepAfterMove | libkpl/src/ledger_device_tcp.cpp:155-165 | Whole replies, the oldest first, are all there is to read after every move of a history in which none was refused for its length |
| Histories.RunHoldsLastCommitted | app/src/instrs.c:33-81 | After every run, under any interleaving of commands, presses, resets and power losses, each slot holds exactly the key last committed to it, read off the commands and presses backwards |
| Histories.SlotsHoldLastCommitted | app/src/instrs.c:33-81 | After every history of calls, the same, read off the calls and presses alone |
| EndToEnd.NameKeyEndToEnd | app/src/instrs.c:144-221 | In every state, with nothing ahead, the outcome of `getKeyFromName` depends on seed, name, the user, the curve primitives and whether command and reply arrive only, never on buffer contents, slots or the approval on the screen, and the key itself only on seed and name; with an earlier reply ahead, it is what the host makes of that reply |
| EndToEnd.LateKeyIsGarbledIff | libkpl/src/kpl.cpp:111-139 | `getKey` or `getKeyFromName` reading the sealed reply to an earlier request succeeds unless its multiplication fails, and returns that key exactly if the two key streams are the same |
| Histories.SlotListEndToEnd | libkpl/src/kpl.cpp:199-224 | After every history, with nothing ahead, the host's list is the strictly ascending list of exactly the slots with a committed key, or the call times out; else it is what the host makes of the reply ahead |
| EndToEnd.StoreEndToEnd | libkpl/src/kpl.cpp:97-109 | What `setKey` reports and what becomes of the slots, whatever is ahead of its reply or on the screen; with neither, success is exactly a key stored and a reply that arrived, the slots change exactly when it was stored, and a timeout leaves them changed exactly when the reply was lost |
| EndToEnd.StoredButTimedOut | app/src/instrs.c:78-80 | A store to an empty slot whose reply is lost: the slot is set, the host reports a timeout |
| EndToEnd.EraseEndToEnd | libkpl/src/kpl.cpp:226-234 | The same for `eraseAllSlots`: with nothing ahead and no earlier approval on the screen, success is exactly an approved erasure whose reply arrived |
| EndToEnd.HearsOwnIff | libkpl/src/ledger_device_usb.cpp:70-83 | A call hears its own reply or times out, whatever the user and the way do, exactly when no earlier reply is unread and no earlier approval is on the screen |
| EndToEnd.CallHears | libkpl/src/ledger_device_usb.cpp:126-175 | Which reply every call hears, over both transports, and which it leaves to be read |
| EndToEnd.RefusedStoreReportsSuccess | libkpl/src/kpl.cpp:97-109 | A refused store reports success, the slots unchanged, whenever an unread success is the oldest reply |
| EndToEnd.ConversationHandles | app/src/main.c:36-81 | A command built by the host is handled as itself whatever the shared buffer held and the screen showed before: its answer is the first message of the call, and the slots follow from command, slots, screen and user |
| EndToEnd.EffectIgnoresBuffer | app/src/instrs.c:88-109 | What an approval sends and stores does not depend on the buffer it is written into |
| EndToEnd.StatusAgreement | app/src/approve.c:64-77 | Of all 16-bit codes only 0x9000 reaches the host as success; the application's error codes reach it as their own results |
| Protocol.StatusMeans | libkpl/src/kpl.cpp:51-70 | For every status word and every result: exactly which words mean it |
| Protocol.AnswerStatus | libkpl/src/ledger_client.cpp:31-46 | What any call reports of any answer: the transport's failure, a length error without a status, or its last two bytes, the high one first |
| EndToEnd.ReplyUnderstood | libkpl/src/ledger_answer.cpp:12-14 | A reply that fits is read back by the host: its payload, and its status through the big-endian encoding |
| EndToEnd.RepliesFit | libkpl/src/kpl.cpp:116-128 | Every reply the device can produce for a command fits the answer the host allocates for it |
| Wire.TransportsDeliver | libkpl/src/ledger_device_tcp.cpp:118-166 | A framed reply is received whole if it fits and refused for its length otherwise: over USB always, over TCP exactly when two reads bring the length and, if it fits, all the rest |
| Wire.LateReplyIsHeardInstead | libkpl/src/ledger_device_usb.cpp:70-83 | Over both transports, an earlier call's reply that arrives late is taken for the reply of the next call, and the others stay for the calls after it |
| Wire.ReadsOldest | libkpl/src/ledger_device_usb.cpp:126-175 | With any number of replies to be read, a call reads exactly the oldest and leaves the others in step, or times out and leaves nothing changed |
| Wire.OwnReplyIff | libkpl/src/ledger_device_tcp.cpp:141-166 | With any earlier replies unread, a call hears its own exactly when there is none, or the oldest cannot be told from it |
| Wire.UsbHearsIff | libkpl/src/ledger_device_usb.cpp:126-175 | For every inbox, a call hears a given message exactly on reports that announce it, are complete and in order, and carry its bytes |
| Wire.UsbBackInStep | libkpl/src/ledger_device_usb.cpp:146-170 | After a reply refused for its length, reads fail with a sequence error exactly once for each of its other reports, with any room; then the next reply is read |
| Wire.TcpOutOfStep | libkpl/src/ledger_device_tcp.cpp:155-165 | A reply refused for its length is left in the stream, to be taken for the next length |
| Session.Serve | app/src/main.c:83-141 | The device's methods, given a command and the user's press, take the run the end-to-end lemmas speak of, and send what they say |
| Session.RequestKey | libkpl/src/kpl.cpp:141-158 | Host and device methods composed over a lasting USB or TCP connection, whatever earlier calls left there or on the screen: `getKey` takes device and connection where the call of `EndToEnd` does, fills its buffer as it says, and writes exactly the command the device served; with nothing left over, it ends as slots, user and way decide |
| Session.RequestKeyFromName | libkpl/src/kpl.cpp:160-179 | The same for `getKeyFromName` |
| Session.Store | libkpl/src/kpl.cpp:97-109 | The same for `setKey`; with nothing left over, the slots change exactly when it stored, and success means stored and heard |
| Session.EraseAll | libkpl/src/kpl.cpp:226-234 | The same for `eraseAllSlots` |
| Session.ListAll | libkpl/src/kpl.cpp:199-224 | The same for `getValidKeySlots`; with nothing left over, the ascending list of the set slots, or a timeout |
| App.StepKeepsInvariant | app/src/instrs.c:88-131 | Under any interleaving of commands, presses, resets and power loss, a pending release or overwrite names a slot below 8 that is still set, and a pending name is valid |
| App.CommandDecodes | libkpl/src/ledger_client.cpp:20-46 | Every command of up to 255 data bytes is dispatched to its instruction with its parameter and data, over any earlier buffer contents; another class byte is refused |
| Protocol.CommandsWritten | libkpl/src/kpl.cpp:97-179 | The bytes of every command the host writes |
| Protocol.ConfigurationAnswered | app/src/instrs.c:17-26 | In every state, the version 0.3.0 and 0x9000 |
| Protocol.StoreAnswered | app/src/instrs.c:53-81 | In every state, the bytes sent, the slot stored or the approval opened by STORE_KEY with any slot and data |
| Protocol.KeyAnswered | app/src/instrs.c:111-131 | The same for GET_KEY |
| Protocol.NameAnswered | app/src/instrs.c:189-221 | The same for GET_KEY_FROM_NAME, and whose caller a rejected name replaces |
| Protocol.ListAnswered | app/src/instrs.c:223-230 | The same for GET_VALID_KEY_SLOTS: one byte whose bit k says whether slot k is set |
| Protocol.EraseAnswered | app/src/instrs.c:238-247 | The same for ERASE_ALL_SLOTS |
| Protocol.OthersAnswered | app/src/main.c:42-49 | Unknown instructions and classes are refused with 0x6D00 and 0x6E00 |
| Protocol.EmptyAnswered | app/src/main.c:105-109 | An empty command is answered with 0x6982 |
| Protocol.BufferKeeps | app/src/main.c:36-81 | After every command, each byte of the buffer from the fifth on is the one received, or else the one held before |
| Protocol.DenialAnswered | app/src/approve.c:85-92 | Every denial sends 0x6820 |
| Protocol.StoreApproved | app/src/instrs.c:42-51 | The approved overwrite stores and sends 0x9000 |
| Protocol.EraseApproved | app/src/instrs.c:232-236 | The approved erasure empties every slot and sends 0x9000 |
| Protocol.KeyApproved | app/src/instrs.c:88-109 | The approved release sends fresh public key, masked key and 0x9000, or 0x6802 alone if a multiplication fails |
| Protocol.NameApproved | app/src/instrs.c:144-177 | The same for a name's key, or 0x6804 if the derivation is refused |
| Protocol.NameKeyMeans | app/src/instrs.c:146-165 | The key of a name is the hash of the node derived on 0x804B5041 and the hardened words, low byte first, of the hash of "dbname", a zero byte and the name |
| Protocol.NamesHaveOwnKeys | app/src/instrs.c:146-165 | Two names have one key only if a hash or the derivation collides |
| AppProperties.SetSlotNeedsApproval | app/src/instrs.c:53-81 | A set slot changes only by an approval press, of erasing everything or of overwriting that very slot |
| AppProperties.RunWithoutApprovalKeepsKeys | app/src/instrs.c:53-81 | A whole run without an approval press keeps every set slot's key |
| AppProperties.StepTransmits | app/src/main.c:94-141 | A step sends at most one message, none when it opens an approval: the placeholder status is never transmitted |
| AppProperties.EveryCommandAccountedFor | app/src/approve.c:56-92 | Over every run: commands are those answered, the pending one, those dropped by resets, and those superseded |
| AppProperties.OneReplyPerCommandIff | app/src/approve.c:109-122 | The first three add up to the commands exactly when no pending approval is interrupted by a request for another |
| AppProperties.InterruptedApprovalIsNeverAnswered | app/src/instrs.c:238-247 | Two erase commands in a row: two commands, no reply sent, nothing dropped, one approval pending |
| AppProperties.AnsweredCommandKeepsPendingIff | app/src/instrs.c:189-204 | Exactly which commands answered at once alter a pending approval |
| AppProperties.RejectedNameReplacesCaller | app/src/instrs.c:198-204 | From every pending name approval there is a rejected command after which the same name would be released to another caller key |
| AppProperties.BitfieldOfStorage | app/src/instrs.c:223-230 | The stored bitfield is the one reported for the slot map it stands for |
| AppProperties.BitsDescribe | app/src/globals.h:29-31 | Bit k of a reported bitfield is set exactly if slot k is |
| AppProperties.PathsHardenedAndInjective | app/src/instrs.c:152-158 | The derivation path has 17 indices, all hardened 32-bit words, and determines the name's hash |
| TwoRuns.KeyDoesNotShow | app/src/instrs.c:88-109 | Two runs with the same events from states that differ only in one slot's key send the same messages, if no release of it was approved, or the approved ones failed and no command took up the key bytes still in the buffer |
| TwoRuns.TakesIff | app/src/main.c:36-59 | For every state and command: slots, approval and messages are the same for every key left in the buffer exactly when the command's data does not reach it, or is rejected whatever it is |
| TwoRuns.AnswerTellsIff | app/src/instrs.c:189-204 | The messages alone are the same for every such key exactly unless the command is a name request of acceptable length that reaches it and whose other name bytes are printable |
| TwoRuns.WithheldKeyDoesNotShow | app/src/instrs.c:111-131 | Whatever commands and presses come, replacing the key of a slot no release of which is approved changes no message |
| TwoRuns.SelfContainedIff | app/src/main.c:36-59 | A command means the same whatever the buffer held before exactly when all that is read of it was received |
| TwoRuns.ReleaseTellsKey | app/src/instrs.c:88-109 | Two approved releases that differ in the key differ in their message exactly when encryption succeeds, and in the buffer they leave when it fails |
| TwoRuns.FailedReleaseShows | app/src/instrs.c:189-204 | After a failed release, a name request shorter than it announces is rejected exactly when byte 5 of the key is not printable |
| TwoRuns.FailedReleaseIsStored | app/src/instrs.c:53-81 | After a failed release, a store request five bytes short stores the key's first five bytes in an empty slot |
| Screen.ScreensIdentify | app/src/instrs.c:206-217 | Two approvals show the same two lines exactly when they are the same operation on the same slot or name |
| Screen.ScreenTells | app/src/instrs.c:69-72 | Which wording names which operation; the digit shown is the slot's, the text between quotes the name |
| Screen.CStringReads | app/src/approve.c:6-7 | A text followed by its terminator reads back as that text whatever stale bytes follow |
| Screen.LinesFit | app/src/instrs.c:213-217 | Every line fits its 32-byte buffer with its terminator and contains no terminator itself |
| Device.Device.Displayed | app/src/approve.c:109-122 | In every valid state with an approval on screen, the two C strings shown are those of the operation the approve button would run: its wording, the decimal digit of exactly its slot, or its name's bytes between quotes |
| Device.Device.Turn | app/src/main.c:94-141 | One turn of the main loop takes the command step on the abstract state; the asynchronous flag is set exactly when an approval was opened; every intermediate flash content boots to the map before or after |
| Device.Device.HandleApdu | app/src/main.c:36-81 | The status word follows the payload; a deferred command leaves a placeholder and the flag |
| Device.Device.HandleStoreKey | app/src/instrs.c:53-81 | Reads key bytes from the shared buffer before anything overwrites it; stores into an empty slot, asks for a set one, rejects bad slots and lengths |
| Device.Device.HandleGetKey | app/src/instrs.c:111-131 | Rejects, reports an empty slot, or asks, with arguments and screen agreeing |
| Device.Device.HandleGetKeyFromName | app/src/instrs.c:189-221 | Rejects bad lengths and unprintable names, or asks; the screen of a pending name approval survives a rejected request |
| Device.Device.HandleGetValidSlots | app/src/instrs.c:223-230 | Replies with the bitfield of the slot map |
| Device.Device.HandleEraseAllSlots | app/src/instrs.c:238-247 | Asks for approval and changes nothing else |
| Device.Device.IsNameValid | app/src/instrs.c:180-188 | True exactly for names of printable ASCII |
| Device.Device.BuildPath | app/src/instrs.c:153-158 | The loop fills the derivation path of the hash |
| Device.Device.GetKeyCallback | app/src/instrs.c:88-109 | Both compiled-out asserts hold; the stored key is encrypted for the saved caller, and a failure sends a status only |
| Device.Device.GetKeyFromNameCallback | app/src/instrs.c:144-177 | The name's derived key, as `Protocol.NameKeyMeans` says it in bytes, is encrypted for the saved caller; a refused derivation sends a security error |
| Device.Device.TouchOkay | app/src/approve.c:56-83 | The approval step on the abstract state, its one reply sent, the screen left; safe under power loss |
| Device.Device.TouchDeny | app/src/approve.c:85-92 | The denial step: a refusal is sent and the slots are unchanged |
| Device.Device.IoReset | app/src/main.c:262-296 | A reset drops the pending approval and nothing else |
| Device.Device.PowerCycle | app/src/main.c:251-284 | Power loss keeps the slots, loses the approval, and leaves arbitrary contents in the buffer and every static variable |
| Device.Device.constructor | app/src/main.c:240-249 | First start on arbitrary flash contents: no approval, nothing sent, slots as initialisation leaves them |
| Storage.Nvm.StoreKeySlot | app/src/instrs.c:33-40 | The slot map gains exactly this key, and power loss between the two writes leaves the map before or after |
| Storage.Nvm.StateInit | app/src/main.c:240-249 | Forced, it empties the map in one write; unforced, it touches only uninitialised storage |
| Storage.StoreMeansInsert | app/src/globals.h:33-37 | Writing key and validity bit inserts into the map and changes no other slot |
| Storage.CrashSafeMeans | app/src/instrs.c:33-40 | Every flash content recorded while storage is crash-safe boots to the map before or after |
| Storage.ErasedInBytes | app/src/main.c:240-249 | A completed erasure leaves zeros and the mark of initialisation |
| Storage.KeyWriteMeans | app/src/instrs.c:37-38 | The key write alone is invisible for an empty slot and complete for a set one |
| Storage.TornEraseIsHarmlessIff | app/src/main.c:240-249 | Without atomic flash writes an initialisation, forced or not, is all-or-nothing exactly when the storage was uninitialised or no set slot holds another key than zero |
| Storage.TearingIsHarmlessIff | app/src/instrs.c:37 | Without atomic flash writes a store is still all-or-nothing exactly when the slot is empty or the keys differ in at most one byte |
| X25519Device.ReverseBytes | app/src/x25519.c:15-21 | Reverses any range, of odd, even or zero length, and leaves the rest of the array |
| X25519Device.Multiply | app/src/x25519.c:23-56 | Copying, clamping and reversing around the big-endian primitive computes the little-endian function, writing 32 bytes or nothing |
| X25519Device.FollowsRfcIff | app/src/x25519.c:38-48 | For every multiplication primitive the device agrees with RFC 7748 section 5 exactly when the point's top bit is clear |
| Curve.ClampDecodes | app/src/x25519.c:32-35 | The clamped bytes denote the scalar RFC 7748 section 5 decodes |
| X25519Device.EncryptKPKey | app/src/x25519.c:58-99 | The buffer gets public key and encrypted key, as `X25519Device.SealedInBytes` says them in bytes; on failure exactly what was written before it |
| X25519Device.SealedInBytes | app/src/x25519.c:58-99 | Encryption from the multiplication, the base point 9 and the hash alone: the fresh public key, and the key masked with the hash of secret, caller's and fresh public key |
| X25519Device.BufferInBytes | app/src/x25519.c:66-76 | What encryption leaves in the buffer when the first or the second multiplication fails, and when none does |
| X25519Device.KeyStreamHashesAll | app/src/x25519.c:80-85 | Exactly the 96 bytes of secret, caller's and application's public key are hashed, in this order |
| X25519Device.KeyStreamNeedsSecret | app/src/x25519.c:80-85 | Two secrets have one key stream only if the hash collides |
| KeyExchange.X25519DecryptKey | libkpl/src/kpl.cpp:22-47 | Decrypts in place, as `Protocol.KeyAnswer` says it in bytes, or leaves the buffer when the multiplication fails |
| Protocol.KeyAnswer | libkpl/src/kpl.cpp:111-139 | What the host makes of every answer to a key request: exactly 64 bytes and 0x9000 are unmasked with the hash of the shared secret and both public keys, or fail on a zero shared coordinate; any other size is a length error |
| Protocol.KeyBuffer | libkpl/src/kpl.cpp:131-136 | The caller's buffer holds the key on success, the masked key if only the multiplication fails, and what it held before otherwise |
| KeyExchange.DecryptUndoesEncrypt | libkpl/src/kpl.cpp:22-47 | Host decryption of what the device sealed is the original key, for every key and all ephemeral keys, except when the shared coordinate is zero, where the host fails |
| KeyExchange.ModExpCommutes | app/src/x25519.c:66-76 | The commutation hypothesis can be met |
| Usb.UsbRoundTrip | libkpl/src/ledger_device_usb.cpp:85-175 | For every message of up to 65535 bytes, its reports, padded with anything and followed by anything, reassemble to it and are all that is consumed; a message over capacity is refused |
| Usb.ReadSucceedsIff | libkpl/src/ledger_device_usb.cpp:126-175 | `read` succeeds exactly on a good first report and the announced number of complete continuations numbered 1, 2, 3, ...; each output byte is located in the report that carries it |
| Usb.FirstBadReportDecides | libkpl/src/ledger_device_usb.cpp:161-170 | The first missing, short or misnumbered continuation decides the error and where reading stops |
| Usb.FirstReportDecides | libkpl/src/ledger_device_usb.cpp:126-148 | Which check of the first report fails decides the error, in the order of the checks, and at most that report is consumed |
| Usb.ReportsInBytes | libkpl/src/ledger_device_usb.cpp:85-124 | Every byte of every report: identifier, channel and tag, big-endian number and length, and the next 57 or 59 bytes of the message |
| Usb.SequenceNumbersNeverWrap | libkpl/src/ledger_device_usb.cpp:104-120 | The number of reports of a message, at most 1111, numbered 0, 1, 2, ... without wrapping |
| LedgerDeviceUsb.LedgerDeviceUSB.Send | libkpl/src/ledger_device_usb.cpp:85-124 | Hands the message's reports to the HID device in order, stopping after the first write seen as short |
| LedgerDeviceUsb.LedgerDeviceUSB.Read | libkpl/src/ledger_device_usb.cpp:126-175 | Fills the caller's buffer with the reassembled bytes and nothing beyond, and reports the announced length |
| LedgerDeviceUsb.LedgerDeviceUSB.Exchange | libkpl/src/ledger_device_usb.cpp:70-83 | Send, receive, shrink the answer; never grows it |
| LedgerDeviceUsb.HandStopsAtFirstNoticed | libkpl/src/ledger_device_usb.cpp:105-114 | Sending stops right after the first write that returned a non-negative short count, and otherwise hands over everything |
| LedgerDeviceUsb.SendSucceedsIff | libkpl/src/ledger_device_usb.cpp:110-113 | Success exactly when there was no such write |
| LedgerDeviceUsb.AllAcceptedIff | libkpl/src/ledger_device_usb.cpp:105-114 | Every report of a message was accepted whole exactly when `send` succeeds and no write for it returned an error |
| LedgerDeviceUsb.FailedWritesGoUnseen | libkpl/src/ledger_device_usb.cpp:110 | If every write fails, `send` still succeeds |
| LedgerDeviceTcp.LedgerDeviceTCP.Exchange | libkpl/src/ledger_device_tcp.cpp:141-166 | Sends length and data, and fills the answer with the announced bytes, or reports which half failed: a length error, a failed send, or what the `recv`s decide |
| LedgerDeviceTcp.TcpReceiveIff | libkpl/src/ledger_device_tcp.cpp:118-165 | For every stream and every behaviour of `recv`: success exactly when one read brings the length, it is at most the capacity, and the next read brings that many bytes, which are the answer |
| LedgerDeviceTcp.TcpRoundTripIff | libkpl/src/ledger_device_tcp.cpp:155-165 | A frame comes out as its contents, or is refused if it exceeds the capacity, exactly when its parts arrive in one read each |
| LedgerDeviceTcp.SplitReplyIsLost | libkpl/src/ledger_device_tcp.cpp:118-138 | A reply that arrives whole, but in two pieces, is a timeout |
| LedgerDeviceTcp.FirstRecvDecides | libkpl/src/ledger_device_tcp.cpp:128-138 | For every stream, a first `recv` that would block is a timeout, one that fails a generic error, a short one a timeout that loses the bytes it brought; and what stays to be read |
| LedgerDeviceTcp.SecondRecvDecides | libkpl/src/ledger_device_tcp.cpp:155-165 | The same for the second `recv`, after the length was accepted; too long a reply is refused before it |
| LedgerDeviceTcp.LengthInBytes | libkpl/src/ledger_device_tcp.cpp:160 | The announced length is four bytes, the first the highest, plus two, in 32 bits |
| LedgerDeviceTcp.WrappedLengthIsTooShort | libkpl/src/ledger_device_tcp.cpp:160 | The announced lengths whose sum with 2 wraps 32 bits are exactly those leaving no room for a status word |
| LedgerClient.APDUStream.Exchange | libkpl/src/ledger_client.cpp:31-46 | Over both transports and whatever the peer sends, success means an answer of at least 2 bytes and at most its capacity; the stream is emptied, or kept if its data is too long |
| LedgerClient.StreamBuildsCommand | libkpl/include/kpl/ledger_client.h:19-28 | Header, appended data and the patched length byte are the command's bytes |
| LedgerAnswer.LedgerAnswer.SW | libkpl/src/ledger_answer.cpp:12-14 | The status word is the answer's last two bytes, read in bounds |
| Kpl.KPL.GetKey | libkpl/src/kpl.cpp:141-158 | Result and buffer follow from the transport's answer to the built command: the key on success, the cipher text if only the decryption fails, unchanged otherwise; a wrong buffer length leaves buffer and transport untouched |
| Kpl.KPL.GetKeyFromName | libkpl/src/kpl.cpp:160-179 | The same for names; a name over 20 bytes leaves buffer and transport untouched |
| Kpl.KPL.SetKey | libkpl/src/kpl.cpp:97-109 | The result follows from the answer; a key of another length leaves the transport untouched |
| Kpl.KPL.GetValidKeySlots | libkpl/src/kpl.cpp:199-224 | Appends the decoded slots to the caller's list, or appends nothing on error |
| Protocol.SlotListAnswer | libkpl/src/kpl.cpp:199-224 | The list succeeds exactly on one byte and 0x9000, with the numbers of its set bits in ascending order; a success of any other size is a length error, and every failure is empty |
| Kpl.KPL.DecodeSlots | libkpl/src/kpl.cpp:214-222 | The shifting loop terminates and appends the list of set bits |
| Kpl.SlotListMeans | libkpl/src/kpl.cpp:214-222 | That list is ascending and holds exactly the numbers of the set bits, at most one per bit |
| Bytes.XorSeqTwice | app/src/x25519.c:87-90 | Masking twice with one key stream restores the bytes |
| Bytes.LoadUndoesStore | libkpl/src/intmem.h:59-69 | Big-endian loads undo big-endian stores, for 16 and 32 bits |
| Bytes.HighByteFirst | libkpl/src/intmem.h:59-69 | Big-endian stores put the most significant byte first, for 16 and 32 bits |
| Bytes.ReverseParts | app/src/x25519.c:15-21 | Reversal takes the parts of a sequence in the opposite order, down to single bytes |
| Bytes.SplitFirst | app/src/x25519.c:28-31 | The first byte of a big-endian number carries its highest digits |
| Bytes.SetBitSetsOneBit | app/src/globals.h:33-37 | Setting a bit sets that bit and no other |
| BitVectors.ShiftTestsBit | app/src/globals.h:29-31 | Testing a bit is the C expression with shift and mask, on every 8-bit word |
| BitVectors.OrSetsBit | app/src/globals.h:33-37 | Setting a bit is the C expression with shift and or |
| BitVectors.ExclusiveOrIsXor | app/src/x25519.c:87-90 | The bitwise reading of exclusive or is the C operator on every pair of bytes |
| BitVectors.MasksAgree | app/src/x25519.c:32-35 | The arithmetic reading of clamping is the three C masks |
| BitVectors.ClampsByMasks | app/src/x25519.c:32-35 | Clamping is those masks on the first and last byte, and changes no other |
| BitVectors.MasksBytewise | app/src/x25519.c:87-90 | Masking is the C operator on the bytes at the same place |
| BitVectors.StoresHighByteFirst | app/src/main.c:77-78 | A status word is stored as its upper, then its lower eight bits, as the C shift and mask give them |
| Results.NormaliseIsBitwise | app/src/main.c:61-73 | The arithmetic reading of status normalisation is the C expression, on every 16-bit word |

## Left out

- SDK and library internals: curve arithmetic, hashes, key derivation, random numbers, flash driver, HID and sockets are parameters or scripted inputs.
- Device enumeration, connection set-up and timeouts' durations: no property beyond success and failure.
- Display drawing, menus and button debouncing: only "approve" and "deny" while the approval screen is shown.
- Wiping of secrets from memory: not a functional property; `Wipe` only empties the command buffer.
- Version exchange on the host, the C interface, `ErrorOr`, error texts, command-line tools and the KeePass plugin: thin.
- Other exceptions thrown by the SDK inside handlers, such as from flash writes: only the refused derivation is modelled.
- Session.RequestKey: how the device's SDK reassembles commands and frames replies is not part of this model; it is taken to do as the host does. The device's turn is taken before the host's exchange; the contract says the host then writes exactly the command served, and it reads only after writing. Presses during a call come after its command. So for the other methods of `Session`.
- EndToEnd.CallHears: what the device sends during a call arrives whole and in time, or not at all; when it sends two messages, its own answer and that to an earlier approval, the way loses both or none. What a read makes of part of a reply is `Usb.ReadSucceedsIff` and `Usb.FirstBadReportDecides`.
- Histories.SlotsHoldLastCommitted: what a power loss among flash writes leaves is before or after the call as a whole; `Device.Device.Turn` and `Device.Device.TouchOkay` prove that of their writes, each write being atomic.

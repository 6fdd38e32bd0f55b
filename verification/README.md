# Single-account message program, modelled in Dafny

The program keeps one text message in one account. The account is an owner
identity plus a byte buffer whose length is fixed when the account is made.
`process_instruction` first checks that the program owns the account. It
then reads the first instruction byte as an opcode and runs one of four
handlers:

- opcode 0, create: is meant to write a serialised `Message` into an empty
  buffer, but never manages to (see below);
- opcode 1, read: deserialises the buffer and logs the text;
- opcode 2, update: deserialises the buffer, replaces the text, re-serialises
  it and overwrites the buffer in place;
- opcode 3, delete: zero-fills the buffer in place.

The model has four modules:

- `Bytes`: the byte type and zero-filled buffers.
- `Utf8`: UTF-8 well-formedness, following Table 3-7 of the Unicode
  Standard (section 3.9). It stands for `std::str::from_utf8` and for the
  validity every `String` carries.
- `Bincode`: a stand-in for `bincode`'s encoding of `Message`. The text
  length comes first as an unsigned 64-bit little-endian integer, then the
  text's bytes. Deserialisation reads one such value from the front of the
  buffer and ignores what follows, as bincode 1's top-level `deserialize`
  does. Its round trip is proved in both directions.
- `MessageProgram`: the program itself. Create, update, delete and the
  whole of `process_instruction` are each specified by a pure function from
  (owner, program id, buffer before, instruction bytes) to an `Effect`,
  which is the program result and the buffer after. Read never writes, so
  it is specified by `ReadMessage`, which returns the message it would log
  or the error; `ProcessEffect` pairs that result with the unchanged buffer.
  `MessageProgram.Account` is a class holding the owner and the buffer as an
  `array`. Its methods run the handlers in place and are proved equal to
  those functions. A panic of the source (an `unwrap`, an out-of-bounds
  index, `copy_from_slice` between slices of different lengths) is the error
  value `Panic(reason)`.

Facts the code implies but never states, all proved here:

- Create never succeeds. It only goes on when the buffer is empty, and an
  empty buffer cannot receive a serialisation, which is always at least
  8 bytes long. Create never changes the buffer.
- Delete does not make an account uninitialised again. The buffer keeps its
  length, so a later create is still refused with `AccountAlreadyInitialized`.
  A later read never reports `UninitializedAccount`. When the buffer has
  8 bytes or more, it reads back as the empty message.
- Update, with its read borrow released before the write (see Findings),
  succeeds exactly when four things hold: the caller owns the account,
  the new text is UTF-8, the buffer deserialises, and the new serialisation
  is exactly as long as the buffer. The buffer then reads back as the new
  text. A foreign owner gets `IncorrectProgramId`; every other failure is
  a panic. Every failed call leaves the buffer byte-for-byte unchanged.

Where a plain description of the program and its code differ, the model
follows the code, with one exception: update's live read borrow at the
write. There `UpdateEffect`, and through it `ProcessEffect` and the
`Account` methods, follow the evident intent and write after the read;
`UpdateEffectAsWritten` models the code as written, which never succeeds.
Elsewhere the code is followed: create cannot store a first message, and a
read after a delete does not report an uninitialised account. Malformed input panics instead of
returning a typed error. Update and delete check ownership a second time;
create and read rely on the gate in `process_instruction` only.

## Model

| member | source | states |
|---|---|---|
| `Bincode.Serialize` | lib.rs:69-70 | the encoding of a message is never empty: 8 prefix bytes followed by exactly the text |
| `Bincode.Deserialize` | lib.rs:86-87 | fails on buffers shorter than the prefix; on success the result is a valid `String` and its serialisation is a prefix of the buffer |
| `Bincode.RoundTrip` | lib.rs:110-113 | deserialising a buffer that starts with a message's serialisation gives that message back, whatever bytes follow |
| `Bincode.DeserializeIff` | lib.rs:86-87 | deserialising gives `m` if and only if the buffer starts with `m`'s serialisation |
| `Bincode.ZerosReadEmpty` | lib.rs:128 | a zero-filled buffer of at least 8 bytes deserialises to the empty message |
| `MessageProgram.Text` | lib.rs:66 | taking the text after the opcode succeeds exactly when there is an opcode byte and the rest is UTF-8; it yields a well-formed message, otherwise a panic |
| `MessageProgram.CreateEffect` | lib.rs:54-75 | create never succeeds and never changes the buffer; it returns `AccountAlreadyInitialized` exactly when the buffer is non-empty and otherwise panics |
| `MessageProgram.ReadMessage` | lib.rs:78-91 | `UninitializedAccount` exactly for an empty buffer; any other failure is the deserialisation panic; a message read is a valid string whose serialisation starts the buffer |
| `MessageProgram.UpdateEffect` | lib.rs:94-117 | length kept; failures leave the buffer unchanged; a foreign owner gives `IncorrectProgramId` and every other failure is a panic; succeeds if and only if owner matches, text is UTF-8, buffer deserialises and the new encoding is exactly the buffer's length; the buffer then reads back as the new text |
| `MessageProgram.UpdateEffectAsWritten` | lib.rs:105-113 | update with the read borrow still live at the write: it never succeeds and never changes the buffer |
| `MessageProgram.DeleteEffect` | lib.rs:120-132 | succeeds if and only if the caller owns the account; the buffer is then all zeros of the same length; otherwise `IncorrectProgramId` with the buffer unchanged |
| `MessageProgram.ProcessEffect` | lib.rs:22-51 | a foreign account gets `IncorrectProgramId` with the buffer unchanged, whatever the instruction (the opcode is not read); failures never change the buffer; the length never changes; only opcodes 2 and 3 change the buffer; only opcodes 1 to 3 succeed |
| `MessageProgram.Dispatch` | lib.rs:36-48 | for an owned account: an empty instruction panics at the opcode read; 0/1/2/3 go to create/read/update/delete; any other opcode gives `InvalidArgument` with the buffer unchanged |
| `MessageProgram.ReadIff` | lib.rs:85-87 | read returns `m` if and only if the buffer starts with `m`'s serialisation |
| `MessageProgram.DeleteIdempotent` | lib.rs:127-128 | deleting twice has the same result and buffer as deleting once |
| `MessageProgram.DeleteKeepsAccountInitialised` | lib.rs:59-63 | after a delete of a non-empty buffer, create is still refused with `AccountAlreadyInitialized` and read never reports `UninitializedAccount`; read gives the empty message from 8 bytes up and panics below that |
| `MessageProgram.UpdateTwice` | lib.rs:105-113 | after a successful update, a second update succeeds if and only if its text is UTF-8 and as long as the first; the buffer then reads back as the second text |
| `MessageProgram.UpdateBorrowConflictExample` | lib.rs:109-113 | on an owned 9-byte buffer holding "a", updating to "b" succeeds and reads back "b", while the update as written panics at the mutable borrow |
| `MessageProgram.UpdateAsWrittenDiffersOnlyAtWrite` | lib.rs:109-113 | the update as written and the sequential one agree on every call that does not reach the write; every call that reaches it panics as written |
| `MessageProgram.Account.CopyFromSlice` | lib.rs:71 | overwrites the whole buffer with the source when the lengths match; otherwise panics with the buffer unchanged |
| `MessageProgram.Account.CreateMessage` | lib.rs:54-75 | result and buffer after are those of `CreateEffect` on the buffer before |
| `MessageProgram.Account.UpdateMessage` | lib.rs:94-117 | result and buffer after are those of `UpdateEffect` on the buffer before |
| `MessageProgram.Account.DeleteMessage` | lib.rs:120-132 | the zero-filling loop leaves the result and buffer of `DeleteEffect` on the buffer before |
| `MessageProgram.Account.ProcessInstruction` | lib.rs:22-51 | result and buffer after are those of `ProcessEffect` on the buffer before |

## Left out

- Logging through `msg!` is not modelled. The text that read logs is the value `ReadMessage` returns.
- The account list and `next_account_info` are not modelled. The model receives the one account directly, so the `NotEnoughAccountKeys` failure of an empty list is not covered.
- The Solana runtime is not modelled: the `entrypoint!` macro, transaction atomicity, concurrent callers and account allocation. An account is an owner plus a buffer.
- `Pubkey` internals are not modelled. Identities are opaque values compared only for equality.
- bincode's real byte layout is not modelled. `Bincode` is a declared stand-in with the same round-trip contract.
- `RefCell` borrow tracking is not modelled in general. `UpdateEffect` treats update's read and write as happening one after the other. The one conflict in the code is modelled separately; see Findings.
- The code does not compile as written, and the model follows the evident intent. `ProgramError` is used but not imported. `Message` has no serialisation derives. Read (lib.rs:86-87) and update (lib.rs:109-110) pass the `Ref` itself to `bincode::deserialize`.
- MessageProgram.Text, CreateEffect, UpdateEffect, ProcessEffect and the methods that use them require instruction data of at most `isize::MAX` bytes. A Rust slice can be no longer, and the bound keeps the 64-bit length prefix exact.
- A panic is modelled as an error value, not as an abort that rolls the transaction back. In this program every panic happens before the buffer is written, so the buffer is unchanged in both readings.

## Findings

| source | as written | input that shows it | evidently intended | confidence | as-written member | corrected member |
|---|---|---|---|---|---|---|
| lib.rs:109-113 | the `Ref` from `borrow()` is still alive when `borrow_mut()` is called on the same cell, so every update that reaches the write panics (already borrowed) | owner equals program id, buffer = the 9-byte serialisation of "a", instruction = [2, 'b'] | release the read borrow before writing, so the 9-byte serialisation of "b" is written | high; not executed | `MessageProgram.UpdateEffectAsWritten`, `MessageProgram.UpdateBorrowConflictExample` | `MessageProgram.UpdateEffect` |

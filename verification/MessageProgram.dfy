/**
 * The single-account message program: an ownership gate, then a dispatch on
 * the first instruction byte to create, read, update or delete the message
 * kept in the account's fixed-length byte buffer.
 *
 * Each handler is specified by a pure function from the state it sees
 * (owner, buffer before, instruction bytes) to an `Effect` (the program
 * result and the buffer after); the `Account` class runs the handlers in
 * place on the buffer and is proved to agree with those functions. The
 * lemmas after the class are about the functions.
 */
module MessageProgram {
  import opened Bytes
  import opened Bincode
  import Utf8

  /** An account or program identity; the program only compares them for equality. */
  datatype Pubkey = Pubkey(bytes: seq<Byte>)

  /** The ways the program aborts instead of returning an error. */
  datatype PanicReason =
    | IndexOutOfBounds     // indexing or slicing the instruction data past its end
    | InvalidUtf8          // unwrapping `from_utf8` on bytes that are not UTF-8
    | DeserializeFailed    // unwrapping `bincode::deserialize` on a buffer it rejects
    | SliceLengthMismatch  // `copy_from_slice` between slices of different lengths
    | AlreadyBorrowed      // `borrow_mut` on a cell that still has a live `borrow`

  datatype ProgramError =
    | IncorrectProgramId
    | InvalidArgument
    | AccountAlreadyInitialized
    | UninitializedAccount
    | Panic(reason: PanicReason)

  datatype Result<T> = Ok(value: T) | Err(error: ProgramError)

  type ProgramResult = Result<()>

  /** What one call leaves behind: its result and the account buffer afterwards. */
  datatype Effect = Effect(result: ProgramResult, data: seq<Byte>)

  const CREATE: Byte := 0
  const READ: Byte := 1
  const UPDATE: Byte := 2
  const DELETE: Byte := 3

  /** A Rust slice holds at most `isize::MAX` bytes. */
  const MAX_SLICE_LEN: nat := 0x7FFF_FFFF_FFFF_FFFF

  predicate IsSlice(s: seq<Byte>)
  {
    |s| <= MAX_SLICE_LEN
  }

  /** The message text carried after the opcode: `from_utf8(&instruction_data[1..]).unwrap()`. */
  function Text(instruction: seq<Byte>): (r: Result<Message>)
    requires IsSlice(instruction)
    ensures r.Ok? <==> |instruction| > 0 && Utf8.Valid(instruction[1..])
    ensures r.Ok? ==> WellFormed(r.value) && [instruction[0]] + r.value.data == instruction
    ensures r.Err? ==> r.error.Panic?
  {
    if |instruction| == 0 then Err(Panic(IndexOutOfBounds))
    else if !Utf8.Valid(instruction[1..]) then Err(Panic(InvalidUtf8))
    else Ok(Message(instruction[1..]))
  }

  /** `dst.copy_from_slice(src)`: a whole overwrite, or a panic when the lengths differ. */
  function CopyEffect(dst: seq<Byte>, src: seq<Byte>): Effect
  {
    if |src| == |dst| then Effect(Ok(()), src) else Effect(Err(Panic(SliceLengthMismatch)), dst)
  }

  /**
   * create_message. It only goes on when the buffer is empty, and then has to
   * copy a serialised message, which is never empty, into it: it never succeeds
   * and never changes the buffer.
   */
  function CreateEffect(data: seq<Byte>, instruction: seq<Byte>): (e: Effect)
    requires IsSlice(instruction)
    ensures e.result.Err? && e.data == data
    ensures e.result == Err(AccountAlreadyInitialized) <==> |data| > 0
    ensures |data| == 0 ==> e.result.error.Panic?
  {
    if |data| > 0 then Effect(Err(AccountAlreadyInitialized), data)
    else match Text(instruction)
      case Err(err) => Effect(Err(err), data)
      case Ok(message) => CopyEffect(data, Serialize(message))
  }

  /** read_message: the message it would log, or why it fails. It never writes. */
  function ReadMessage(data: seq<Byte>): (r: Result<Message>)
    ensures r == Err(UninitializedAccount) <==> |data| == 0
    ensures r.Ok? ==> WellFormed(r.value) && Serialize(r.value) <= data
    ensures r.Err? && |data| > 0 ==> r.error == Panic(DeserializeFailed)
  {
    if |data| == 0 then Err(UninitializedAccount)
    else match Deserialize(data)
      case None => Err(Panic(DeserializeFailed))
      case Some(message) => Ok(message)
  }

  /**
   * update_message, with the buffer read and then written one after the
   * other. It succeeds exactly when the caller owns the account, the text is
   * UTF-8, the buffer deserialises, and the new serialisation is as long as
   * the buffer; then the buffer reads back as the new text. On every failure
   * the buffer is left as it was.
   */
  function UpdateEffect(owner: Pubkey, programId: Pubkey, data: seq<Byte>, instruction: seq<Byte>): (e: Effect)
    requires IsSlice(instruction)
    ensures |e.data| == |data|
    ensures e.result.Err? ==> e.data == data
    ensures owner != programId ==> e.result == Err(IncorrectProgramId)
    ensures e.result.Err? && owner == programId ==> e.result.error.Panic?
    ensures e.result.Ok? <==>
      owner == programId && |instruction| > 0 && Utf8.Valid(instruction[1..]) &&
      Deserialize(data).Some? && LENGTH_PREFIX + |instruction| - 1 == |data|
    ensures e.result.Ok? ==> ReadMessage(e.data) == Ok(Message(instruction[1..]))
  {
    if owner != programId then Effect(Err(IncorrectProgramId), data)
    else match Text(instruction)
      case Err(err) => Effect(Err(err), data)
      case Ok(text) =>
        match Deserialize(data)
        case None => Effect(Err(Panic(DeserializeFailed)), data)
        case Some(current) =>
          var updated := current.(data := text.data);
          var e := CopyEffect(data, Serialize(updated));
          RoundTrip(updated, []);
          assert Serialize(updated) + [] == Serialize(updated);
          e
  }

  /**
   * update_message as the source has it: the `Ref` taken to deserialise the
   * buffer is still alive when the buffer is borrowed mutably to write it,
   * so every call that gets that far panics.
   */
  function UpdateEffectAsWritten(owner: Pubkey, programId: Pubkey, data: seq<Byte>, instruction: seq<Byte>): (e: Effect)
    requires IsSlice(instruction)
    ensures e.result.Err? && e.data == data
  {
    if owner != programId then Effect(Err(IncorrectProgramId), data)
    else match Text(instruction)
      case Err(err) => Effect(Err(err), data)
      case Ok(_) =>
        match Deserialize(data)
        case None => Effect(Err(Panic(DeserializeFailed)), data)
        case Some(_) => Effect(Err(Panic(AlreadyBorrowed)), data)
  }

  /** delete_message: zero-fill the whole buffer, keeping its length, when the caller owns it. */
  function DeleteEffect(owner: Pubkey, programId: Pubkey, data: seq<Byte>): (e: Effect)
    ensures |e.data| == |data|
    ensures e.result.Ok? <==> owner == programId
    ensures e.result.Ok? ==> AllZero(e.data)
    ensures e.result.Err? ==> e == Effect(Err(IncorrectProgramId), data)
  {
    if owner != programId then Effect(Err(IncorrectProgramId), data)
    else Effect(Ok(()), Zeros(|data|))
  }

  /**
   * process_instruction. Nothing but the ownership gate runs for a foreign
   * account; a failure never changes the buffer; only update and delete
   * ever change it; only read, update and delete ever succeed.
   */
  function ProcessEffect(owner: Pubkey, programId: Pubkey, data: seq<Byte>, instruction: seq<Byte>): (e: Effect)
    requires IsSlice(instruction)
    ensures |e.data| == |data|
    ensures e.result.Err? ==> e.data == data
    ensures owner != programId ==> e == Effect(Err(IncorrectProgramId), data)
    ensures e.data != data ==> |instruction| > 0 && (instruction[0] == UPDATE || instruction[0] == DELETE)
    ensures e.result.Ok? ==> |instruction| > 0 && READ <= instruction[0] <= DELETE
  {
    if owner != programId then Effect(Err(IncorrectProgramId), data)
    else if |instruction| == 0 then Effect(Err(Panic(IndexOutOfBounds)), data)
    else
      var opcode := instruction[0];
      if opcode == CREATE then CreateEffect(data, instruction)
      else if opcode == READ then
        Effect(match ReadMessage(data) case Ok(_) => Ok(()) case Err(err) => Err(err), data)
      else if opcode == UPDATE then UpdateEffect(owner, programId, data, instruction)
      else if opcode == DELETE then DeleteEffect(owner, programId, data)
      else Effect(Err(InvalidArgument), data)
  }

  /** The message account: an owner and a buffer whose length never changes. */
  class Account {
    const owner: Pubkey
    const data: array<Byte>

    constructor (owner: Pubkey, contents: seq<Byte>)
      ensures this.owner == owner && data[..] == contents && fresh(data)
    {
      this.owner := owner;
      data := new Byte[|contents|](i requires 0 <= i < |contents| => contents[i]);
    }

    /** `data.borrow_mut().copy_from_slice(src)` */
    method CopyFromSlice(src: seq<Byte>) returns (r: ProgramResult)
      modifies data
      ensures Effect(r, data[..]) == CopyEffect(old(data[..]), src)
    {
      if |src| != data.Length {
        return Err(Panic(SliceLengthMismatch));
      }
      var i := 0;
      while i < data.Length
        invariant 0 <= i <= data.Length
        invariant forall k :: 0 <= k < i ==> data[k] == src[k]
      {
        data[i] := src[i];
        i := i + 1;
      }
      r := Ok(());
    }

    method CreateMessage(programId: Pubkey, instruction: seq<Byte>) returns (r: ProgramResult)
      requires IsSlice(instruction)
      modifies data
      ensures Effect(r, data[..]) == CreateEffect(old(data[..]), instruction)
    {
      if data.Length > 0 {
        return Err(AccountAlreadyInitialized);
      }
      var text := Text(instruction);
      if text.Err? {
        return Err(text.error);
      }
      var bytes := Serialize(text.value);
      r := CopyFromSlice(bytes);
    }

    method UpdateMessage(programId: Pubkey, instruction: seq<Byte>) returns (r: ProgramResult)
      requires IsSlice(instruction)
      modifies data
      ensures Effect(r, data[..]) == UpdateEffect(owner, programId, old(data[..]), instruction)
    {
      if owner != programId {
        return Err(IncorrectProgramId);
      }
      var text := Text(instruction);
      if text.Err? {
        return Err(text.error);
      }
      var current := Deserialize(data[..]);
      if current.None? {
        return Err(Panic(DeserializeFailed));
      }
      var updated := current.value.(data := text.value.data);
      var bytes := Serialize(updated);
      r := CopyFromSlice(bytes);
    }

    method DeleteMessage(programId: Pubkey) returns (r: ProgramResult)
      modifies data
      ensures Effect(r, data[..]) == DeleteEffect(owner, programId, old(data[..]))
    {
      if owner != programId {
        return Err(IncorrectProgramId);
      }
      var i := 0;
      while i < data.Length
        invariant 0 <= i <= data.Length
        invariant forall k :: 0 <= k < i ==> data[k] == 0
      {
        data[i] := 0;
        i := i + 1;
      }
      assert data[..] == Zeros(data.Length);
      r := Ok(());
    }

    method ProcessInstruction(programId: Pubkey, instruction: seq<Byte>) returns (r: ProgramResult)
      requires IsSlice(instruction)
      modifies data
      ensures Effect(r, data[..]) == ProcessEffect(owner, programId, old(data[..]), instruction)
    {
      if owner != programId {
        return Err(IncorrectProgramId);
      }
      if |instruction| == 0 {
        return Err(Panic(IndexOutOfBounds));
      }
      var opcode := instruction[0];
      if opcode == CREATE {
        r := CreateMessage(programId, instruction);
      } else if opcode == READ {
        var message := ReadMessage(data[..]);
        r := if message.Ok? then Ok(()) else Err(message.error);
      } else if opcode == UPDATE {
        r := UpdateMessage(programId, instruction);
      } else if opcode == DELETE {
        r := DeleteMessage(programId);
      } else {
        r := Err(InvalidArgument);
      }
    }
  }

  /**
   * Dispatch for an account the program owns: an empty instruction panics at
   * the opcode read, opcodes 0 to 3 go to create, read, update and delete,
   * and any other opcode is rejected with the buffer unchanged.
   */
  lemma Dispatch(owner: Pubkey, programId: Pubkey, data: seq<Byte>, instruction: seq<Byte>)
    requires IsSlice(instruction) && owner == programId
    ensures var e := ProcessEffect(owner, programId, data, instruction);
      && (|instruction| == 0 ==> e == Effect(Err(Panic(IndexOutOfBounds)), data))
      && (|instruction| > 0 && instruction[0] == CREATE ==> e == CreateEffect(data, instruction))
      && (|instruction| > 0 && instruction[0] == READ ==>
            e.data == data && (e.result.Ok? <==> ReadMessage(data).Ok?) &&
            (e.result.Err? ==> e.result.error == ReadMessage(data).error))
      && (|instruction| > 0 && instruction[0] == UPDATE ==> e == UpdateEffect(owner, programId, data, instruction))
      && (|instruction| > 0 && instruction[0] == DELETE ==> e == DeleteEffect(owner, programId, data))
      && (|instruction| > 0 && instruction[0] > DELETE ==> e == Effect(Err(InvalidArgument), data))
  {
  }

  /** Reading succeeds with `m` exactly when the buffer starts with `m`'s serialisation. */
  lemma ReadIff(data: seq<Byte>, m: Message)
    requires WellFormed(m)
    ensures ReadMessage(data) == Ok(m) <==> Serialize(m) <= data
  {
    DeserializeIff(data, m);
  }

  /** Deleting twice leaves the same result and buffer as deleting once. */
  lemma DeleteIdempotent(owner: Pubkey, programId: Pubkey, data: seq<Byte>)
    ensures var once := DeleteEffect(owner, programId, data);
      DeleteEffect(owner, programId, once.data) == once
  {
  }

  /**
   * Delete does not make an account uninitialised again: its buffer keeps its
   * length, so a later create is still refused, and a later read does not
   * report an uninitialised account; it reads the empty message when the
   * buffer can hold a length prefix and panics otherwise.
   */
  lemma DeleteKeepsAccountInitialised(owner: Pubkey, programId: Pubkey, data: seq<Byte>, instruction: seq<Byte>)
    requires IsSlice(instruction) && owner == programId && |data| > 0
    ensures var cleared := DeleteEffect(owner, programId, data).data;
      && CreateEffect(cleared, instruction) == Effect(Err(AccountAlreadyInitialized), cleared)
      && ReadMessage(cleared) != Err(UninitializedAccount)
      && (|data| >= LENGTH_PREFIX ==> ReadMessage(cleared) == Ok(Message([])))
      && (|data| < LENGTH_PREFIX ==> ReadMessage(cleared) == Err(Panic(DeserializeFailed)))
  {
    var cleared := DeleteEffect(owner, programId, data).data;
    assert cleared == Zeros(|data|);
    if |data| >= LENGTH_PREFIX {
      ZerosReadEmpty(|data|);
    }
  }

  /**
   * Two updates in a row: once an update has succeeded, the next one
   * succeeds exactly when its text is valid and as long as the first one's,
   * and then the buffer reads back as the second text, not the first.
   */
  lemma UpdateTwice(owner: Pubkey, programId: Pubkey, data: seq<Byte>, first: seq<Byte>, second: seq<Byte>)
    requires IsSlice(first) && IsSlice(second)
    requires UpdateEffect(owner, programId, data, first).result.Ok?
    ensures var after := UpdateEffect(owner, programId, data, first).data;
      var e := UpdateEffect(owner, programId, after, second);
      && (e.result.Ok? <==> |second| == |first| && Utf8.Valid(second[1..]))
      && (e.result.Ok? ==> ReadMessage(e.data) == Ok(Message(second[1..])))
  {
  }

  /**
   * The input that separates the source's update from the sequential one:
   * an owned nine-byte buffer holding the one-letter message "a", updated
   * to "b". The sequential update succeeds and the buffer reads back "b";
   * the update as written panics when it borrows the buffer to write it.
   */
  lemma UpdateBorrowConflictExample(owner: Pubkey)
    ensures var data := Serialize(Message([0x61]));
      var instruction := [UPDATE, 0x62];
      && |data| == 9
      && ProcessEffect(owner, owner, data, instruction).result == Ok(())
      && ReadMessage(ProcessEffect(owner, owner, data, instruction).data) == Ok(Message([0x62]))
      && UpdateEffectAsWritten(owner, owner, data, instruction) == Effect(Err(Panic(AlreadyBorrowed)), data)
  {
    var data := Serialize(Message([0x61]));
    var instruction: seq<Byte> := [UPDATE, 0x62];
    Utf8.AsciiIsValid([0x61]);
    Utf8.AsciiIsValid(instruction[1..]);
    RoundTrip(Message([0x61]), []);
    assert data + [] == data;
  }

  /**
   * Everywhere except the final write the source's update and the sequential
   * one agree; at the write, the source panics on the borrow whether or not
   * the lengths would have matched.
   */
  lemma UpdateAsWrittenDiffersOnlyAtWrite(owner: Pubkey, programId: Pubkey, data: seq<Byte>, instruction: seq<Byte>)
    requires IsSlice(instruction)
    ensures var reachesWrite := owner == programId && Text(instruction).Ok? && Deserialize(data).Some?;
      && (reachesWrite ==> UpdateEffectAsWritten(owner, programId, data, instruction) == Effect(Err(Panic(AlreadyBorrowed)), data))
      && (!reachesWrite ==> UpdateEffectAsWritten(owner, programId, data, instruction) == UpdateEffect(owner, programId, data, instruction))
  {
  }
}

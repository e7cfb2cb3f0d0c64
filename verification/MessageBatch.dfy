/** The growable byte buffer that carries messages of one type (server/MessageBatch.hpp). */
module MessageBatches {
  import opened Frames

  const DEFAULT_BUF_LENGTH: nat := 256
  const GROW_UNTIL_LENGTH: nat := DEFAULT_BUF_LENGTH * 128

  /** What a batch is to everybody but its buffer. */
  datatype Batch = Batch(msgType: string, bytes: string)

  /** std::ceil(n / 256) * 256 */
  function RoundUp(n: nat): (r: nat)
    ensures n <= r < n + DEFAULT_BUF_LENGTH && r % DEFAULT_BUF_LENGTH == 0
  {
    (n + DEFAULT_BUF_LENGTH - 1) / DEFAULT_BUF_LENGTH * DEFAULT_BUF_LENGTH
  }

  class MessageBatch {
    var messageType: string
    var buffer: array?<char>
    var maxLength: nat
    var bufferLength: nat
    var bufferPosition: nat
    var nbMessages: nat
    var isBusy: bool

    ghost function Repr(): set<object>
      reads this
    {
      {this} + if buffer == null then {} else {buffer}
    }

    /** The readable region lies inside maxLength, and maxLength inside what is allocated. */
    ghost predicate Valid()
      reads this
    {
      bufferPosition + bufferLength <= maxLength <= if buffer == null then 0 else buffer.Length
    }

    /** Everything that is allocated. */
    function Storage(): string
      reads this, buffer
    {
      if buffer == null then "" else buffer[..]
    }

    /** The bytes appended and not yet advanced past. */
    function Contents(): (s: string)
      reads this, buffer
      requires Valid()
      ensures |s| == bufferLength
    {
      Storage()[bufferPosition..bufferPosition + bufferLength]
    }

    ghost function Value(): Batch
      reads this, buffer
      requires Valid()
    {
      Batch(messageType, Contents())
    }

    /** MessageBatch(): an empty batch with the default storage. */
    constructor ()
      ensures Valid() && fresh(Repr()) && Value() == Batch("", "")
      ensures bufferPosition == 0 && buffer != null && maxLength == DEFAULT_BUF_LENGTH
    {
      messageType, maxLength, bufferLength, bufferPosition := "", DEFAULT_BUF_LENGTH, 0, 0;
      nbMessages, isBusy := 0, false;
      buffer := new char[DEFAULT_BUF_LENGTH](_ => '\0');
    }

    /** The member initialisers a move constructor starts from: no storage at all. */
    constructor Zeroed()
      ensures Valid() && Repr() == {this} && Value() == Batch("", "")
      ensures bufferPosition == 0 && buffer == null && maxLength == 0
    {
      messageType, maxLength, bufferLength, bufferPosition := "", 0, 0, 0;
      nbMessages, isBusy := 0, false;
      buffer := null;
    }

    /** A batch as it sits in a list or a queue. */
    constructor Holding(b: Batch)
      ensures Valid() && fresh(Repr()) && Value() == b && bufferPosition == 0
    {
      messageType, maxLength, bufferLength, bufferPosition := b.msgType, |b.bytes|, |b.bytes|, 0;
      nbMessages, isBusy := 0, false;
      buffer := new char[|b.bytes|](i requires 0 <= i < |b.bytes| => b.bytes[i]);
    }

    /** calloc or realloc to byteSize: the bytes in use survive, what is new is unspecified. */
    method Reallocate(byteSize: nat)
      requires Valid() && bufferLength <= byteSize && bufferPosition == 0 && byteSize > 0
      modifies this`buffer
      ensures buffer != null && buffer.Length == byteSize && fresh(buffer)
      ensures buffer[..bufferLength] == old(Contents())
    {
      var grown := new char[byteSize];
      if buffer != null {
        var kept := if buffer.Length < byteSize then buffer.Length else byteSize;
        forall i | 0 <= i < kept {
          grown[i] := buffer[i];
        }
      }
      buffer := grown;
    }

    /** What growing does: storage of exactly byteSize bytes and a capacity that grows separately, or nothing. */
    twostate predicate Grown(extra: nat, byteSize: nat)
      reads this
    {
      if old(bufferLength) + extra > old(maxLength)
      then buffer != null && buffer.Length == byteSize && maxLength == old(maxLength) + extra
      else buffer == old(buffer) && maxLength == old(maxLength)
    }

    /** Makes room for `extra` more bytes, asking for storage of `byteSize` if there is too little. */
    method Grow(extra: nat, byteSize: nat)
      requires Valid() && bufferPosition == 0 && maxLength + extra <= byteSize
      modifies this`buffer, this`maxLength
      ensures Valid() && Contents() == old(Contents()) && fresh(Repr() - old(Repr()))
      ensures bufferLength + extra <= maxLength && Grown(extra, byteSize)
    {
      if extra + bufferLength > maxLength {
        Reallocate(byteSize);
        maxLength := maxLength + extra;
      }
    }

    /** memmove(&buffer[bufferLength], bytes), and counts the bytes in. */
    method WriteBack(bytes: string)
      requires Valid() && bufferPosition == 0 && bufferLength + |bytes| <= maxLength
      modifies this`bufferLength, buffer
      ensures Valid() && Contents() == old(Contents()) + bytes
    {
      if bytes != "" {
        forall i | 0 <= i < |bytes| {
          buffer[bufferLength + i] := bytes[i];
        }
      }
      bufferLength := bufferLength + |bytes|;
    }

    /** Both in turn: room, then bytes. */
    method AppendBytes(bytes: string, byteSize: nat)
      requires Valid() && bufferPosition == 0 && maxLength + |bytes| <= byteSize
      modifies this`buffer, this`maxLength, this`bufferLength, buffer
      ensures Valid() && Contents() == old(Contents()) + bytes
      ensures fresh(Repr() - old(Repr())) && Grown(|bytes|, byteSize)
    {
      Grow(|bytes|, byteSize);
      WriteBack(bytes);
    }

    /** Appends at the end of an unread batch; refuses, and changes nothing, once the batch has
        grown to its limit. */
    method Append(message: string) returns (ok: bool)
      requires Valid() && bufferPosition == 0
      modifies Repr()
      ensures Valid() && bufferPosition == 0 && fresh(Repr() - old(Repr()))
      ensures messageType == old(messageType)
      ensures ok <==> old(bufferLength) < GROW_UNTIL_LENGTH
      ensures Contents() == if ok then old(Contents()) + message else old(Contents())
      ensures if ok then Grown(|message|, RoundUp(old(maxLength) + |message|))
              else buffer == old(buffer) && maxLength == old(maxLength)
    {
      if bufferLength >= GROW_UNTIL_LENGTH {
        return false;
      }
      AppendBytes(message, RoundUp(maxLength + |message|));
      return true;
    }

    method TakeLabels(other: MessageBatch)
      requires Valid() && bufferPosition == 0
      modifies this`messageType, this`nbMessages, this`bufferPosition, this`isBusy
      ensures messageType == old(other.messageType) && bufferPosition == 0
    {
      messageType, nbMessages, bufferPosition, isBusy := other.messageType, other.nbMessages, 0, false;
    }

    /** copy(other): appends other's bytes and takes over its type. */
    method CopyFrom(other: MessageBatch)
      requires Valid() && bufferPosition == 0
      requires other.Valid() && other.bufferPosition == 0 && Repr() !! other.Repr()
      modifies Repr()
      ensures Valid() && bufferPosition == 0 && fresh(Repr() - old(Repr()))
      ensures messageType == other.messageType && Contents() == old(Contents()) + other.Contents()
      ensures Grown(other.bufferLength, RoundUp(old(maxLength) + other.maxLength))
    {
      var bytes := other.Contents();
      AppendBytes(bytes, RoundUp(maxLength + other.maxLength));
      assert other.Contents() == bytes;
      TakeLabels(other);
    }

    /** The seven exchanges of a move. */
    method Exchange(other: MessageBatch)
      requires this != other
      modifies this, other
      ensures buffer == old(other.buffer) && other.buffer == old(buffer)
      ensures maxLength == old(other.maxLength) && other.maxLength == old(maxLength)
      ensures bufferLength == old(other.bufferLength) && other.bufferLength == old(bufferLength)
      ensures bufferPosition == old(other.bufferPosition) && other.bufferPosition == old(bufferPosition)
      ensures messageType == old(other.messageType) && other.messageType == old(messageType)
    {
      buffer, other.buffer := other.buffer, buffer;
      maxLength, other.maxLength := other.maxLength, maxLength;
      bufferLength, other.bufferLength := other.bufferLength, bufferLength;
      bufferPosition, other.bufferPosition := other.bufferPosition, bufferPosition;
      messageType, other.messageType := other.messageType, messageType;
      nbMessages, other.nbMessages := other.nbMessages, nbMessages;
      isBusy, other.isBusy := other.isBusy, isBusy;
    }

    /** Move construction and move assignment: the two batches exchange everything. */
    method Swap(other: MessageBatch)
      requires Valid() && other.Valid() && this != other
      modifies this, other
      ensures Valid() && other.Valid()
      ensures messageType == old(other.messageType) && other.messageType == old(messageType)
      ensures Contents() == old(other.Contents()) && other.Contents() == old(Contents())
      ensures buffer == old(other.buffer) && other.buffer == old(buffer)
      ensures bufferPosition == old(other.bufferPosition) && other.bufferPosition == old(bufferPosition)
      ensures maxLength == old(other.maxLength) && other.maxLength == old(maxLength)
    {
      ghost var mine, theirs := Storage(), other.Storage();
      Exchange(other);
      assert Storage() == theirs && other.Storage() == mine;
    }

    /** Moves the read position, on size_t. The guard of the subtraction is always true: after skipping more
        than there is the batch is not well formed, unless the position wraps as well. Then both step back
        together, and bytes that were passed already are readable again. */
    method Advance(amount: nat)
      requires Valid() && amount < SIZE
      modifies this
      ensures buffer == old(buffer) && messageType == old(messageType) && maxLength == old(maxLength)
      ensures maxLength < SIZE ==> (Valid() <==> amount <= old(bufferLength) || old(bufferPosition) + amount >= SIZE)
      ensures amount <= old(bufferLength) && maxLength < SIZE ==>
                Valid() && Contents() == old(Contents())[amount..] && bufferPosition == old(bufferPosition) + amount
      ensures old(bufferPosition) + amount >= SIZE > maxLength ==>
                && bufferPosition == old(bufferPosition) - (SIZE - amount)
                && bufferLength == old(bufferLength) + (SIZE - amount)
    {
      var position := (bufferPosition + amount) % SIZE;
      bufferPosition := if position <= maxLength then position else maxLength;
      bufferLength := if bufferLength >= amount then bufferLength - amount else bufferLength + SIZE - amount;
    }

    /** Empties the batch but keeps its type and its storage. */
    method ClearForNextMessage()
      requires Valid()
      modifies Repr()
      ensures Valid() && Repr() == old(Repr()) && buffer == old(buffer) && maxLength == old(maxLength)
      ensures bufferPosition == 0
      ensures Value() == Batch(old(messageType), "")
    {
      if buffer != null {
        forall i | 0 <= i < maxLength {
          buffer[i] := '\0';
        }
      }
      bufferLength, bufferPosition, nbMessages, isBusy := 0, 0, 0, false;
    }

    predicate IsFull()
      reads this
    {
      bufferLength > GROW_UNTIL_LENGTH
    }

    predicate HasContent()
      reads this
    {
      bufferLength > 0
    }
  }
}

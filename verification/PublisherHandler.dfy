/** The publisher connection in place (server/publisher/TCPPublisherHandler.hpp): one indexed loop
    over the received bytes that copies content in bulk. */
module PublisherHandlers {
  import opened Frames
  import opened MessageBatches
  import opened PublisherModel

  /** ++i and --i on size_t. */
  function StepForward(i: nat): (r: nat)
    requires i < SIZE
    ensures r == if i + 1 == SIZE then 0 else i + 1
  {
    (i + 1) % SIZE
  }

  function StepBack(i: nat): (r: nat)
    requires i < SIZE
    ensures r == if i == 0 then SIZE - 1 else i - 1
    ensures StepForward(r) == i
  {
    (i + SIZE - 1) % SIZE
  }

  class PublisherHandler {
    var parseState: Phase
    var messageType: string
    var messageLengthBuffer: string
    var messageContent: string
    var messageContentLength: nat
    var nbContentBytesRead: nat
    const currentBatch: MessageBatch
    var pushed: seq<Batch>
    ghost var log: seq<Entry>
    ghost var groups: seq<seq<Message>>
    ghost var open: seq<Message>

    ghost predicate Valid()
      reads this, currentBatch
    {
      && currentBatch.Valid() && currentBatch.bufferPosition == 0
      && nbContentBytesRead == |messageContent| <= messageContentLength
      && messageContentLength + MAX_READ_BUF < SIZE
      && (!parseState.InContent? ==> messageContent == "")
    }

    ghost function Parsing(): Parse
      reads this
    {
      Parse(parseState, messageType, messageLengthBuffer, messageContentLength, messageContent)
    }

    ghost function Batching(): Batcher
      reads this, currentBatch, currentBatch.buffer
      requires Valid()
    {
      Batcher(currentBatch.Value(), pushed, log, groups, open)
    }

    ghost function Abstract(): Publisher
      reads this, currentBatch, currentBatch.buffer
      requires Valid()
    {
      Publisher(Parsing(), Batching())
    }

    constructor ()
      ensures Valid() && fresh(currentBatch) && fresh(currentBatch.Repr())
      ensures Abstract() == Start
    {
      parseState := InType;
      messageType, messageLengthBuffer, messageContent := "", "", "";
      messageContentLength, nbContentBytesRead := 0, 0;
      currentBatch := new MessageBatch();
      pushed, log, groups, open := [], [], [], [];
    }

    /** pushToQueue(std::move(currentBatch)): the queue's element takes everything. */
    method PushToQueue()
      requires Valid()
      modifies this`pushed, this`groups, this`open, currentBatch, currentBatch.Repr()
      ensures Valid() && Batching() == Push(old(Batching()))
      ensures fresh(currentBatch.Repr() - old(currentBatch.Repr()))
    {
      var element := new MessageBatch.Zeroed();
      element.Swap(currentBatch);
      pushed := pushed + [Batch(element.messageType, element.Contents())];
      groups, open := groups + [open], [];
      currentBatch.ClearForNextMessage();
    }

    /** Chooses the batch for the completed message: the open one, or a new one after a cut. */
    method PrepareBatch()
      requires Valid()
      modifies this`pushed, this`groups, this`open, currentBatch, currentBatch.Repr()
      ensures Valid() && Batching() == Prepare(old(Batching()), messageType)
      ensures fresh(currentBatch.Repr() - old(currentBatch.Repr()))
    {
      if currentBatch.messageType == "" {
        currentBatch.messageType := messageType;
      } else if currentBatch.messageType != messageType || currentBatch.IsFull() {
        PushToQueue();
        currentBatch.messageType := messageType;
      }
    }

    method AppendMessage(message: string)
      requires Valid() && message == Complete(Parsing()).Bytes()
      modifies this`log, this`open, currentBatch.Repr()
      ensures Valid() && Batching() == Append(old(Batching()), Complete(Parsing()))
      ensures fresh(currentBatch.Repr() - old(currentBatch.Repr()))
    {
      ghost var m := Complete(Parsing());
      var kept := currentBatch.Append(message);
      log := log + [Entry(m, kept)];
      if kept { open := open + [m]; }
    }

    /** A frame is complete: batch it, and cut the batch if it ends the fragment. */
    method DoneParsing(last: bool)
      requires Valid()
      modifies this, currentBatch, currentBatch.Repr()
      ensures Valid() && Batching() == Deliver(old(Batching()), Delivery(Complete(old(Parsing())), last))
      ensures Parsing() == Fresh
      ensures fresh(currentBatch.Repr() - old(currentBatch.Repr()))
    {
      PrepareBatch();
      AppendMessage(messageType + "|" + messageLengthBuffer + "|" + messageContent);
      if last {
        PushToQueue();
      }
      ResetFrame();
    }

    method ResetFrame()
      requires Valid()
      modifies this`parseState, this`messageType, this`messageLengthBuffer, this`messageContent,
               this`messageContentLength, this`nbContentBytesRead
      ensures Valid() && Parsing() == Fresh && Batching() == old(Batching())
    {
      messageContentLength, nbContentBytesRead := 0, 0;
      messageLengthBuffer, messageType, messageContent := "", "", "";
      parseState := InType;
    }

    /** A byte of the type or of the length of a frame. */
    method TakeHeader(ch: char)
      requires Valid() && (parseState.InType? || parseState.InLength?)
      modifies this`parseState, this`messageType, this`messageLengthBuffer, this`messageContentLength
      ensures Valid() && Parsing() == TakeParse(old(Parsing()), ch) && Batching() == old(Batching())
    {
      if parseState.InType? {
        if ch == '|' {
          parseState := InLength;
        } else {
          messageType := messageType + [ch];
        }
      } else if ch == '|' {
        match ContentLength(messageLengthBuffer)
        case Some(n) =>
          messageContentLength := n;
          parseState := InContent;
        case None =>
          parseState := Halted;
      } else {
        messageLengthBuffer := messageLengthBuffer + [ch];
      }
    }

    /** Copies as much content as there is in bulk. Returns the index of the last byte copied, on
        size_t: one before i, wrapping at 0, when there was nothing to copy. */
    method CopyContent(buffer: string, i: nat) returns (index: nat)
      requires Valid() && parseState.InContent? && i < |buffer| <= MAX_READ_BUF
      modifies this`messageContent, this`nbContentBytesRead
      ensures Valid() && Batching() == old(Batching())
      ensures var n := BulkSize(old(Parsing()), |buffer| - i);
              && index == StepBack(i + n)
              && Parsing() == old(Parsing()).(content := old(messageContent) + buffer[i..i + n])
    {
      var nbCharsNeeded := messageContentLength - nbContentBytesRead;
      if i + nbCharsNeeded > |buffer| {
        nbCharsNeeded := |buffer| - i;
      }
      messageContent := messageContent + buffer[i..i + nbCharsNeeded];
      nbContentBytesRead := nbContentBytesRead + nbCharsNeeded;
      index := StepBack(i + nbCharsNeeded);
    }

    /** The content branch of forwardMessage: a bulk copy, and the delivery it may complete. */
    method TakeContent(buffer: string, i: nat) returns (index: nat)
      requires Valid() && parseState.InContent? && i < |buffer| <= MAX_READ_BUF
      modifies this, currentBatch, currentBatch.Repr()
      ensures Valid() && fresh(currentBatch.Repr() - old(currentBatch.Repr()))
      ensures Parsing() == Copy(old(Parsing()), buffer, i).parse
      ensures Batching() == DeliverCopied(old(Batching()), Copy(old(Parsing()), buffer, i))
      ensures index == StepBack(i + BulkSize(old(Parsing()), |buffer| - i))
    {
      index := CopyContent(buffer, i);
      if messageContentLength == nbContentBytesRead {
        DoneParsing(index == |buffer| - 1);
      }
    }

    /** One turn of the loop of forwardMessage. `here` and `before` are the walk through the fragment so
        far and the batches it started from. */
    method Consume(buffer: string, i: nat, ghost here: Walk, ghost before: Batcher) returns (next: nat)
      requires Valid() && !parseState.Halted? && i < |buffer| <= MAX_READ_BUF
      requires here.parse == Parsing() && Batching() == DeliverAll(before, here.out)
      modifies this, currentBatch, currentBatch.Repr()
      ensures Valid() && fresh(currentBatch.Repr() - old(currentBatch.Repr()))
      ensures next == TurnTo(here.parse, buffer, i)
      ensures Parsing() == Turn(here, buffer, i).parse
      ensures Batching() == DeliverAll(before, Turn(here, buffer, i).out)
    {
      if parseState.InContent? {
        BulkDelivers(before, here, buffer, i);
        var index := TakeContent(buffer, i);
        next := StepForward(index);
      } else {
        TakeHeader(buffer[i]);
        next := StepForward(i);
      }
    }

    /** The loop of forwardMessage. The index is a size_t and steps back over the terminator of an empty
        content, at index 0 by wrapping around. */
    method ForwardBytes(buffer: string)
      requires Valid() && |buffer| <= MAX_READ_BUF
      modifies this, currentBatch, currentBatch.Repr()
      ensures Valid() && fresh(currentBatch.Repr() - old(currentBatch.Repr()))
      ensures var w := WalkTo(old(Parsing()), buffer, |buffer|);
              Parsing() == w.parse && Batching() == DeliverAll(old(Batching()), w.out)
    {
      var i: nat := 0;
      ghost var start, before := Parsing(), Batching();
      ghost var here := Walk(start, []);
      while i < |buffer| && !parseState.Halted?
        invariant Valid() && fresh(currentBatch.Repr() - old(currentBatch.Repr()))
        invariant i <= |buffer| && At(start, here, buffer, i)
        invariant here.parse == Parsing() && Batching() == DeliverAll(before, here.out)
        decreases |buffer| - i, if here.parse.phase.InContent? then 1 else 0
      {
        TurnStep(start, here, buffer, i);
        ghost var there := Turn(here, buffer, i);
        i := Consume(buffer, i, here, before);
        here := there;
      }
      AtEnd(start, here, buffer, i);
    }

    /** forwardMessage: whatever the fragment, the effect is that of its bytes one at a time. */
    method ForwardMessage(buffer: string)
      requires Valid() && |buffer| <= MAX_READ_BUF
      modifies this, currentBatch, currentBatch.Repr()
      ensures Valid() && Abstract() == Feed(old(Abstract()), buffer)
      ensures fresh(currentBatch.Repr() - old(currentBatch.Repr()))
    {
      ForwardBytes(buffer);
    }
  }
}

/** The queue of batches between publishers and subscribers (server/MessageQueue.hpp), as a thread sees it
    while no other thread is inside one of its operations: a bounded first-in first-out list
    (MpmcTheorems.QuiescentIsRingBuffer) of moved batches, and two flags for the draining thread. */
module MessageQueues {
  import opened MessageBatches

  class MessageQueue {
    const capacity: nat
    var waiting: seq<Batch>
    var afQueue: bool
    var hasPendingData: bool

    constructor (capacity: nat)
      ensures this.capacity == capacity && waiting == [] && !afQueue && !hasPendingData
    {
      this.capacity, waiting, afQueue, hasPendingData := capacity, [], false, false;
    }

    /** push_back: the batch is moved, so the caller keeps one without type, bytes or storage. On a full queue
        the call waits inside emplace: it is not done and has moved nothing yet. */
    method PushBack(chunk: MessageBatch) returns (done: bool)
      requires chunk.Valid() && chunk.bufferPosition == 0
      modifies this, chunk
      ensures done == (|old(waiting)| < capacity)
      ensures done ==> waiting == old(waiting) + [old(chunk.Value())] && afQueue && hasPendingData
      ensures done ==> chunk.Valid() && chunk.Value() == Batch("", "") && chunk.buffer == null && chunk.maxLength == 0
      ensures !done ==> unchanged(this) && unchanged(chunk)
    {
      done := |waiting| < capacity;
      if done {
        var slot := new MessageBatch.Zeroed();
        slot.Swap(chunk);
        waiting := waiting + [Batch(slot.messageType, slot.Contents())];
        afQueue := true;
        if !hasPendingData {
          hasPendingData := true;
        }
      }
    }

    /** try_pop: moves the oldest batch into `chunk`. */
    method TryPop(chunk: MessageBatch) returns (ok: bool)
      requires chunk.Valid() && chunk.bufferPosition == 0
      modifies this`waiting, chunk
      ensures ok == (old(waiting) != [])
      ensures chunk.Valid() && chunk.bufferPosition == 0 && fresh(chunk.Repr() - old(chunk.Repr()))
      ensures ok ==> waiting == old(waiting)[1..] && chunk.Value() == old(waiting)[0]
      ensures !ok ==> waiting == old(waiting) && chunk.Value() == old(chunk.Value())
    {
      ok := waiting != [];
      if ok {
        var slot := new MessageBatch.Holding(waiting[0]);
        chunk.Swap(slot);
        waiting := waiting[1..];
      }
    }
  }
}

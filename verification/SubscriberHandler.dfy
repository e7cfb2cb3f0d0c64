/** The subscriber connection in place (server/subscriber/TCPSubscriberHandler.hpp): one buffer being
    sent and a list of batches waiting. */
module SubscriberHandlers {
  import opened Sequences
  import opened Frames
  import opened MessageBatches
  import opened SubscriberModel
  import SubscriberTheorems

  /** A send the kernel is working on: it reads `length` bytes of `buffer` from `offset`. */
  datatype Request = NoRequest | Request(buffer: array?<char>, offset: nat, length: nat)

  function BytesOf(bs: seq<Batch>): (r: seq<string>)
    ensures |r| == |bs|
    ensures forall i :: 0 <= i < |bs| ==> r[i] == bs[i].bytes
  {
    seq(|bs|, i requires 0 <= i < |bs| => bs[i].bytes)
  }

  class SubscriberHandler {
    var event: Event
    const currentItem: MessageBatch
    var pendingItems: seq<Batch>
    var request: Request
    var isDisconnected: bool
    var subscriptions: set<string>
    ghost var requested: string
    ghost var sent: string
    ghost var accepted: seq<string>

    ghost function Repr(): set<object>
      reads this, currentItem
    {
      {this} + currentItem.Repr()
    }

    /** The outstanding send reads exactly the readable region of the current item, and that region
        still holds the bytes that were handed over. */
    ghost predicate RequestOk()
      reads this, currentItem, currentItem.buffer
      requires currentItem.Valid()
    {
      request.Request? ==>
        && event.SendData? && currentItem.bufferLength > 0
        && request == Request(currentItem.buffer, currentItem.bufferPosition, currentItem.bufferLength)
        && requested == currentItem.Contents()
    }

    ghost predicate Valid()
      reads this, currentItem, currentItem.buffer
    {
      && currentItem.Valid()
      && (currentItem.bufferLength == 0 ==> currentItem.bufferPosition == 0)
      && RequestOk()
    }

    ghost function Abstract(): Pump
      reads this, currentItem, currentItem.buffer
      requires Valid()
    {
      Pump(event, currentItem.Contents(), BytesOf(pendingItems),
           if request.Request? then Some(requested) else None, isDisconnected, sent, accepted)
    }

    /** An outstanding send is still the same one, and the kernel still reads from the same buffer. */
    twostate predicate SendStands()
      reads this, currentItem
    {
      old(request).Request? ==> request == old(request) && currentItem.buffer == old(currentItem.buffer)
    }

    /** Which batches are accepted: those whose type is the beginning of a subscription, while connected. */
    twostate predicate TookExactly(t: string, bytes: string)
      reads this
    {
      accepted == if !old(isDisconnected) && exists s :: s in old(subscriptions) && |t| <= |s| && s[..|t|] == t
                  then old(accepted) + [bytes] else old(accepted)
    }

    twostate lemma OfferedTook(b: Batch)
      requires old(Valid()) && Valid() && Abstract() == Offered(old(Abstract()), old(subscriptions), b)
      ensures TookExactly(b.msgType, b.bytes)
    {
      SubscriberTheorems.OfferedAccepts(old(Abstract()), old(subscriptions), b);
    }

    /** A connection whose handshake is over. */
    constructor ()
      ensures Valid() && fresh(Repr()) && Abstract() == Idle && subscriptions == {}
    {
      event, request, isDisconnected := Ready, NoRequest, false;
      pendingItems, subscriptions := [], {};
      currentItem := new MessageBatch();
      requested, sent, accepted := "", "", [];
    }

    /** sendCurrentMessage: hands the readable region to the kernel. */
    method SendCurrentMessage()
      requires Valid() && currentItem.bufferLength > 0
      modifies this`event, this`request, this`requested
      ensures Valid() && Abstract() == Send(old(Abstract()))
    {
      request := Request(currentItem.buffer, currentItem.bufferPosition, currentItem.bufferLength);
      requested := currentItem.Contents();
      event := SendData;
    }

    /** The branch of pushMessageBatch for an idle connection. */
    method SendCopy(batch: MessageBatch)
      requires Valid() && batch.Valid() && batch.bufferPosition == 0 && batch.bufferLength > 0
      requires batch.Repr() !! Repr() && currentItem.bufferLength == 0
      modifies this`event, this`request, this`requested, currentItem.Repr()
      ensures Valid() && fresh(Repr() - old(Repr()))
      ensures Abstract() == Send(old(Abstract()).(current := batch.Contents()))
    {
      currentItem.CopyFrom(batch);
      SendCurrentMessage();
    }

    /** pushMessageBatch: sends the batch now, or keeps a copy for later. An outstanding send and the buffer it
        reads from stay as they are. */
    method PushMessageBatch(batch: MessageBatch)
      requires Valid() && batch.Valid() && batch.bufferPosition == 0 && batch.bufferLength > 0
      requires batch.Repr() !! Repr()
      modifies this, currentItem.Repr()
      ensures Valid() && fresh(Repr() - old(Repr()))
      ensures Abstract() == PushBatch(old(Abstract()), batch.Contents())
      ensures subscriptions == old(subscriptions) && SendStands()
    {
      accepted := accepted + [batch.Contents()];
      if !currentItem.HasContent() {
        SendCopy(batch);
      } else {
        pendingItems := pendingItems + [Batch(batch.messageType, batch.Contents())];
      }
    }

    /** What drainQueue does for one client. */
    method Offer(batch: MessageBatch)
      requires Valid() && batch.Valid() && batch.bufferPosition == 0 && batch.bufferLength > 0
      requires batch.Repr() !! Repr()
      modifies this, currentItem.Repr()
      ensures Valid() && fresh(Repr() - old(Repr()))
      ensures Abstract() == Offered(old(Abstract()), old(subscriptions), batch.Value())
      ensures TookExactly(batch.messageType, batch.Contents())
      ensures subscriptions == old(subscriptions)
      ensures SendStands()
    {
      if !isDisconnected && IsSubscribed(subscriptions, batch.messageType) {
        PushMessageBatch(batch);
      }
      OfferedTook(batch.Value());
    }

    /** The move assignment of sendNextPendingMessageBatch. */
    method TakeFront()
      requires Valid() && pendingItems != [] && request.NoRequest? && currentItem.bufferLength == 0
      modifies this`pendingItems, currentItem
      ensures Valid() && fresh(Repr() - old(Repr())) && pendingItems == old(pendingItems)[1..]
      ensures currentItem.Value() == old(pendingItems)[0]
    {
      var front := new MessageBatch.Holding(pendingItems[0]);
      currentItem.Swap(front);
      pendingItems := pendingItems[1..];
    }

    /** sendNextPendingMessageBatch: the current item and the first waiting one change places. */
    method SendNextPendingMessageBatch()
      requires Valid() && pendingItems != [] && request.NoRequest? && currentItem.bufferLength == 0
      modifies this, currentItem.Repr()
      ensures Valid() && fresh(Repr() - old(Repr()))
      ensures Abstract() == SendNext(old(Abstract()))
      ensures subscriptions == old(subscriptions)
    {
      TakeFront();
      if currentItem.HasContent() {
        SendCurrentMessage();
      }
    }

    /** What onSendCurrentMessageComplete does once the current item is sent. */
    method CollectNext()
      requires Valid() && request.NoRequest? && currentItem.bufferLength == 0
      modifies this, currentItem.Repr()
      ensures Valid() && fresh(Repr() - old(Repr()))
      ensures var p := old(Abstract()); Abstract() == if p.pending != [] then SendNext(p) else p.(event := Ready)
      ensures subscriptions == old(subscriptions)
    {
      if pendingItems != [] {
        SendNextPendingMessageBatch();
      } else {
        event := Ready;
      }
    }

    /** Its branch for a send that did something: the rest is sent, or what waits, or the connection is ready. */
    method GoOn(res: nat)
      requires Valid() && request.NoRequest? && requested == currentItem.Contents() && currentItem.maxLength < SIZE
      requires 0 < res <= currentItem.bufferLength
      modifies this, currentItem.Repr()
      ensures Valid() && fresh(Repr() - old(Repr())) && subscriptions == old(subscriptions)
      ensures var p := old(Abstract());
              var p2 := p.(current := p.current[res..], sent := p.sent + p.current[..res]);
              Abstract() == if p2.current != "" then Send(p2)
                            else if p2.pending != [] then SendNext(p2) else p2.(event := Ready)
    {
      sent := sent + requested[..res];
      currentItem.Advance(res);
      if currentItem.HasContent() {
        SendCurrentMessage();
      } else {
        currentItem.ClearForNextMessage();
        CollectNext();
      }
    }

    /** onSendCurrentMessageComplete: the kernel reports how much of the outstanding send it did. */
    method OnSendCurrentMessageComplete(res: int)
      requires Valid() && request.Request? && res <= request.length && currentItem.maxLength < SIZE
      modifies this, currentItem.Repr()
      ensures Valid() && fresh(Repr() - old(Repr()))
      ensures Abstract() == Completed(old(Abstract()), res)
      ensures event.Disconnected? <==> res < 0
      ensures subscriptions == old(subscriptions)
    {
      request := NoRequest;
      if res == 0 {
        return;
      }
      if res < 0 {
        event := Disconnected;
        return;
      }
      GoOn(res);
    }

    method OnDisconnected()
      requires Valid()
      modifies this`isDisconnected
      ensures Valid() && Abstract() == Closed(old(Abstract()))
    {
      isDisconnected := true;
    }
  }
}

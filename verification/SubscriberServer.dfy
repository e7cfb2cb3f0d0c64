/** The broadcast of server/subscriber/SubscriberServer.hpp: a batch taken from the queue is offered to
    every connected client. */
module SubscriberServers {
  import opened MessageBatches
  import opened MessageQueues
  import opened SubscriberModel
  import opened SubscriberHandlers

  class SubscriberServer {
    const clients: seq<SubscriberHandler>

    constructor (clients: seq<SubscriberHandler>)
      ensures this.clients == clients
    {
      this.clients := clients;
    }

    ghost predicate Apart()
      reads clients, set c | c in clients :: c.currentItem
    {
      forall i, j :: 0 <= i < |clients| && 0 <= j < |clients| && i != j ==> clients[i].Repr() !! clients[j].Repr()
    }

    ghost predicate AllValid()
      reads clients, (set c | c in clients :: c.currentItem), set c | c in clients :: c.currentItem.buffer
    {
      forall i :: 0 <= i < |clients| ==> clients[i].Valid()
    }

    /** The pumps of the first n clients. */
    ghost function Pumps(n: nat): (ps: seq<Pump>)
      reads clients, (set c | c in clients :: c.currentItem), set c | c in clients :: c.currentItem.buffer
      requires n <= |clients| && AllValid()
      ensures |ps| == n && forall i :: 0 <= i < n ==> ps[i] == clients[i].Abstract()
    {
      seq(n, i requires 0 <= i < n && AllValid()
               reads clients, (set c | c in clients :: c.currentItem), set c | c in clients :: c.currentItem.buffer
               => clients[i].Abstract())
    }

    /** The footprints of the clients before a step of client k alone, and what stays true after. */
    twostate lemma StillApart(k: nat)
      requires old(Apart()) && k < |clients|
      requires fresh(clients[k].Repr() - old(clients[k].Repr()))
      requires forall i :: 0 <= i < |clients| && i != k ==> clients[i].Repr() == old(clients[i].Repr())
      ensures Apart()
    {
      forall i, j | 0 <= i < |clients| && 0 <= j < |clients| && i != j
        ensures clients[i].Repr() !! clients[j].Repr()
      {
        assert old(clients[i].Repr() !! clients[j].Repr());
      }
    }

    /** One batch offered to client k leaves all others as they are. */
    method OfferTo(k: nat, batch: MessageBatch)
      requires k < |clients| && AllValid() && Apart()
      requires batch.Valid() && batch.bufferPosition == 0 && batch.bufferLength > 0
      requires clients[k].Repr() !! batch.Repr()
      modifies clients[k], clients[k].currentItem.Repr()
      ensures AllValid() && Apart() && fresh(clients[k].Repr() - old(clients[k].Repr()))
      ensures clients[k].Abstract() == Offered(old(clients[k].Abstract()), old(clients[k].subscriptions), batch.Value())
      ensures clients[k].subscriptions == old(clients[k].subscriptions) && clients[k].SendStands()
      ensures forall i :: 0 <= i < |clients| && i != k ==>
                && clients[i].request == old(clients[i].request)
                && clients[i].currentItem.buffer == old(clients[i].currentItem.buffer)
                && clients[i].Repr() == old(clients[i].Repr())
                && clients[i].Abstract() == old(clients[i].Abstract())
                && clients[i].subscriptions == old(clients[i].subscriptions)
    {
      clients[k].Offer(batch);
      forall i | 0 <= i < |clients| && i != k
        ensures clients[i].Valid() && clients[i].Repr() == old(clients[i].Repr())
        ensures clients[i].Abstract() == old(clients[i].Abstract()) && clients[i].request == old(clients[i].request)
        ensures clients[i].subscriptions == old(clients[i].subscriptions)
      {
        assert old(clients[i].Repr() !! clients[k].Repr());
      }
      StillApart(k);
    }

    /** The for_each of drainQueue. */
    method OfferToAll(batch: MessageBatch)
      requires AllValid() && Apart() && batch.Valid() && batch.bufferPosition == 0 && batch.bufferLength > 0
      requires forall i :: 0 <= i < |clients| ==> clients[i].Repr() !! batch.Repr()
      modifies set i, o | 0 <= i < |clients| && o in clients[i].Repr() :: o
      ensures AllValid() && Apart()
      ensures forall i :: 0 <= i < |clients| ==>
                clients[i].Abstract() == Offered(old(Pumps(|clients|))[i], clients[i].subscriptions, batch.Value())
      ensures forall i :: 0 <= i < |clients| ==>
                clients[i].subscriptions == old(clients[i].subscriptions) && clients[i].SendStands()
    {
      ghost var before := Pumps(|clients|);
      ghost var b := batch.Value();
      for k := 0 to |clients|
        invariant AllValid() && Apart()
        invariant batch.Valid() && batch.Value() == b
        invariant forall i :: 0 <= i < |clients| ==>
                    && clients[i].subscriptions == old(clients[i].subscriptions) && clients[i].SendStands()
                    && clients[i].Abstract() == (if i < k then Offered(before[i], clients[i].subscriptions, b) else before[i])
                    && (k <= i ==>
                          && clients[i].Repr() == old(clients[i].Repr()) && clients[i].request == old(clients[i].request)
                          && clients[i].currentItem.buffer == old(clients[i].currentItem.buffer))
      {
        OfferTo(k, batch);
      }
    }

    /** The loop body of drainQueue: one batch is offered to all clients, and each takes it exactly as
        if it were alone: those that are connected and have a subscription that begins with its type. */
    method Broadcast(batch: MessageBatch)
      requires AllValid() && Apart() && batch.Valid() && batch.bufferPosition == 0 && batch.bufferLength > 0
      requires forall i :: 0 <= i < |clients| ==> clients[i].Repr() !! batch.Repr()
      modifies set i, o | 0 <= i < |clients| && o in clients[i].Repr() :: o
      ensures AllValid() && Apart()
      ensures forall i :: 0 <= i < |clients| ==>
                clients[i].Abstract() == Offered(old(Pumps(|clients|))[i], clients[i].subscriptions, batch.Value())
      ensures forall i :: 0 <= i < |clients| ==>
                clients[i].subscriptions == old(clients[i].subscriptions) && clients[i].SendStands()
      ensures forall i :: 0 <= i < |clients| ==> clients[i].TookExactly(batch.messageType, batch.Contents())
    {
      OfferToAll(batch);
      forall i | 0 <= i < |clients| ensures clients[i].TookExactly(batch.messageType, batch.Contents()) {
        clients[i].OfferedTook(batch.Value());
      }
    }

    /** The try_pop of drainQueue leaves the clients alone. */
    method TakeBatch(q: MessageQueue, batch: MessageBatch) returns (ok: bool)
      requires AllValid() && Apart() && batch.Valid() && batch.bufferPosition == 0
      requires forall i :: 0 <= i < |clients| ==> clients[i].Repr() !! batch.Repr()
      modifies q`waiting, batch
      ensures ok == (old(q.waiting) != []) && q.waiting == if ok then old(q.waiting)[1..] else []
      ensures batch.Valid() && batch.bufferPosition == 0 && (ok ==> batch.Value() == old(q.waiting)[0])
      ensures AllValid() && Apart() && Pumps(|clients|) == old(Pumps(|clients|))
      ensures forall i :: 0 <= i < |clients| ==>
                && clients[i].Repr() == old(clients[i].Repr()) && clients[i].Repr() !! batch.Repr()
                && clients[i].request == old(clients[i].request)
                && clients[i].currentItem.buffer == old(clients[i].currentItem.buffer)
                && clients[i].subscriptions == old(clients[i].subscriptions)
    {
      ok := q.TryPop(batch);
      forall i | 0 <= i < |clients|
        ensures clients[i].Valid() && clients[i].Repr() == old(clients[i].Repr()) && clients[i].Repr() !! batch.Repr()
        ensures clients[i].Abstract() == old(clients[i].Abstract())
      {
        assert old(clients[i].Repr() !! batch.Repr());
      }
    }

    /** One round of drainQueue: the oldest batch is taken into `batch` and broadcast. */
    method DrainOne(q: MessageQueue, batch: MessageBatch) returns (ok: bool)
      requires AllValid() && Apart() && batch.Valid() && batch.bufferPosition == 0
      requires forall i :: 0 <= i < |clients| ==> clients[i].Repr() !! batch.Repr()
      requires forall i :: 0 <= i < |clients| ==> q !in clients[i].Repr()
      requires forall b :: b in q.waiting ==> b.bytes != ""
      modifies q`waiting, batch, set i, o | 0 <= i < |clients| && o in clients[i].Repr() :: o
      ensures AllValid() && Apart()
      ensures ok == (old(q.waiting) != []) && q.waiting == if ok then old(q.waiting)[1..] else []
      ensures !ok ==> Pumps(|clients|) == old(Pumps(|clients|))
      ensures ok ==> forall i :: 0 <= i < |clients| ==>
                clients[i].Abstract() == Offered(old(Pumps(|clients|))[i], clients[i].subscriptions, old(q.waiting)[0])
      ensures forall i :: 0 <= i < |clients| ==>
                clients[i].subscriptions == old(clients[i].subscriptions) && clients[i].SendStands()
    {
      ok := TakeBatch(q, batch);
      if ok {
        Broadcast(batch);
      }
    }
  }
}

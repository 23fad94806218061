// The reader's event loop over all its clients: receiving from them, and keeping
// its table in step.
module EventLoops {
  import opened Clients
  import opened Conversations
  import opened Readers
  import opened Server
  import opened Validation
  import opened HashTable
  import opened Murmur

  lemma NotListenedTo(client: Client, c: Conversation)
    requires client.Valid() && Shows(client, c) && Over(c)
    ensures !client.watched
  {
  }

  // One report of the event loop on a client in the table. The client moves on as
  // it does alone; if it has been dropped meanwhile, whatever the reason, it is
  // taken out of the table, which so has exactly the clients listened to.
  method OnEvent(reader: Reader, client: Client, wake: Wake, origins: Origins, ghost c: Conversation)
    requires reader.Valid() && client.id in reader.roster && reader.roster[client.id] == client
    requires client.Valid() && Shows(client, c) && HasRoom(client) && WithinRead(wake)
    modifies client`state, client`dataState, client`watched, client`events, client`fragmentedFrame
    modifies client.bufferIn, client.bufferIn.mem
    modifies client.fragmentedFrame, client.fragmentedData, client.fragmentedData.mem
    modifies reader`roster, reader.clients, reader.clients.items, reader.clients.filed
    ensures client.Valid() && Shows(client, Woken(c, wake, origins)) && HasRoom(client) && KeepsBuffers(client)
    ensures reader.Valid() && reader.clients.holds == old(reader.clients.holds)
    ensures reader.clients.filed <= old(reader.clients.filed)
    ensures client.watched <==> client.id in reader.roster
    ensures wake.HungUp? ==> client.id !in reader.roster
    ensures reader.roster == if client.watched then old(reader.roster) else old(reader.roster) - {client.id}
  {
    hide Woken, Shows, HasRoom, WithinRead, KeepsBuffers, Client.Valid, Filed, IdKey, Col, RemoveAt, Table.Valid;
    NumberedDrop(reader.roster, reader.added, client.id);
    OnWake(client, wake, origins, c);
    if wake.HungUp? {
      HangingUpEnds(c, origins);
      NotListenedTo(client, Woken(c, wake, origins));
    }
    if !client.watched {
      assert reader.ValidBut(client.id);
      var _ := reader.TakeOut(client);
    }
  }
}

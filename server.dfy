/**
 The server's in-memory state and its request handlers. The two Maps, emailStorage
 and emailInboxes, are fields changed in place; `order` is the iteration order they
 share. Each handler is a method whose new state and response are those the Store
 module gives for the old state.
 */
module Server {
  import opened Store
  import Address

  class MailStore {
    var order: seq<string>
    var storage: map<string, Record>
    var inboxes: map<string, seq<Message>>

    /** The tables as a value. */
    function Snapshot(): Tables
      reads this
    {
      Tables(order, storage, inboxes)
    }

    ghost predicate Valid()
      reads this
    {
      WellFormed(Snapshot())
    }

    /** The server at start-up: both Maps empty. */
    constructor ()
      ensures Valid() && Snapshot() == Tables([], map[], map[])
    {
      order, storage, inboxes := [], map[], map[];
      new;
      EmptyWellFormed();
    }

    /**
     POST /api/generate-email. `randomText` is what Math.random().toString(36)
     returned and `now` what Date.now() returned.
     */
    method Generate(randomText: string, now: nat) returns (address: string, expiresAt: nat)
      requires Valid()
      modifies this
      ensures Valid()
      ensures address == Address.GenerateAddress(randomText, now)
      ensures expiresAt == now + TenMinutes
      ensures Snapshot() == Created(old(Snapshot()), address, now)
    {
      address := Address.GenerateAddress(randomText, now);
      CreateOverwrites(Snapshot(), address, now);
      var data := Record(address, now, now + TenMinutes);
      if address !in storage {
        order := order + [address];
      }
      storage := storage[address := data];
      inboxes := inboxes[address := []];
      expiresAt := data.expiresAt;
    }

    /** GET /api/inbox/:email. It reads the clock nowhere. */
    method Inbox(address: string) returns (r: Response<seq<Message>>)
      ensures r == InboxOf(Snapshot(), address)
    {
      if address !in storage {
        return NotFound;
      }
      r := Ok(if address in inboxes then inboxes[address] else []);
    }

    /**
     POST /api/webhook/email. `id` is what uuidv4() returned, assumed unused;
     `supplied` is the payload's optional timestamp.
     */
    method Receive(to: string, from: string, subject: string, body: string, supplied: Option<int>, id: string, now: nat)
      returns (r: Response<()>)
      requires Valid() && !IdInUse(inboxes, id)
      modifies this
      ensures Valid()
      ensures r == Received(old(Snapshot()), to, NewMessage(id, from, subject, body, supplied, now)).response
      ensures Snapshot() == Received(old(Snapshot()), to, NewMessage(id, from, subject, body, supplied, now)).after
    {
      if to in inboxes {
        var m := NewMessage(id, from, subject, body, supplied, now);
        ReceiveAppends(Snapshot(), to, m);
        var inbox := inboxes[to];
        inbox := inbox + [m];
        inboxes := inboxes[to := inbox];
        r := Ok(());
      } else {
        r := NotFound;
      }
    }

    /** GET /api/email/:emailId: scan the inboxes in Map order, mark the first match read. */
    method Open(id: string) returns (r: Response<Message>)
      requires Valid()
      modifies this
      ensures Valid()
      ensures r == Opened(old(Snapshot()), id).response
      ensures Snapshot() == Opened(old(Snapshot()), id).after
    {
      ghost var t := Snapshot();
      OpenMarksRead(t, id);
      var k := 0;
      while k < |order|
        invariant k <= |order|
        invariant Snapshot() == t
        invariant Locate(order, inboxes, id, k) == Locate(order, inboxes, id, 0)
      {
        assert order[k] in t.order;
        var inbox := inboxes[order[k]];
        var i := FindIndex(inbox, id);
        if i != -1 {
          var m := inbox[i].(read := true);
          inboxes := inboxes[order[k] := inbox[i := m]];
          return Ok(m);
        }
        k := k + 1;
      }
      return NotFound;
    }

    /** DELETE /api/email/:emailId: scan the inboxes in Map order, splice out the first match. */
    method Delete(id: string) returns (r: Response<()>)
      requires Valid()
      modifies this
      ensures Valid()
      ensures r == Deleted(old(Snapshot()), id).response
      ensures Snapshot() == Deleted(old(Snapshot()), id).after
    {
      ghost var t := Snapshot();
      DeleteRemovesOne(t, id);
      var k := 0;
      while k < |order|
        invariant k <= |order|
        invariant Snapshot() == t
        invariant Locate(order, inboxes, id, k) == Locate(order, inboxes, id, 0)
      {
        assert order[k] in t.order;
        var inbox := inboxes[order[k]];
        var i := FindIndex(inbox, id);
        if i != -1 {
          inboxes := inboxes[order[k] := RemoveAt(inbox, i)];
          return Ok(());
        }
        k := k + 1;
      }
      return NotFound;
    }

    /** cleanupExpiredEmails at `now`: delete every expired address from both Maps. */
    method Sweep(now: nat)
      requires Valid()
      modifies this
      ensures Valid()
      ensures Snapshot() == Swept(old(Snapshot()), now)
    {
      ghost var t := Snapshot();
      UnsweptEnds(t.storage, t.storage, now, t.order);
      UnsweptEnds(t.inboxes, t.storage, now, t.order);
      var keys, kept, records, boxes := order, [], storage, inboxes;
      var i := 0;
      while i < |keys|
        invariant i <= |keys|
        invariant kept + KeepLive(keys[i..], t.storage, now) == KeepLive(keys, t.storage, now)
        invariant records == Unswept(t.storage, t.storage, now, keys[i..])
        invariant boxes == Unswept(t.inboxes, t.storage, now, keys[i..])
      {
        var email := keys[i];
        KeepLiveStep(kept, keys, t.storage, now, i);
        UnsweptStep(t.storage, t.storage, now, keys, i);
        UnsweptStep(t.inboxes, t.storage, now, keys, i);
        assert email in t.storage && records[email] == t.storage[email];
        if now - records[email].createdAt > TenMinutes {
          records := records - {email};
          boxes := boxes - {email};
        } else {
          kept := kept + [email];
        }
        i := i + 1;
      }
      assert keys[i..] == [];
      order, storage, inboxes := kept, records, boxes;
      SweepRemovesExactlyExpired(t, now);
      assert Snapshot() == Swept(t, now);
    }
  }
}

/**
 The two tables of the temporary-mail server, as values, and what each request
 handler does to them. `order` is the iteration order the two JavaScript Maps share:
 a key set for the first time goes to the end, setting an existing key keeps its
 place, deleting a key removes it.
 */
module Store {

  /** The time-to-live of an address, in milliseconds (ten minutes). */
  const TenMinutes: nat := 10 * 60 * 1000

  datatype Option<T> = None | Some(value: T)

  /** The JSON envelope of a response, reduced to success with a payload or 404. */
  datatype Response<T> = Ok(value: T) | NotFound

  /** An entry of emailStorage. */
  datatype Record = Record(email: string, createdAt: nat, expiresAt: nat)

  /** A received message. */
  datatype Message = Message(id: string, from: string, subject: string, body: string, timestamp: int, read: bool)

  /** The state of the server: both Maps and their common iteration order. */
  datatype Tables = Tables(order: seq<string>, storage: map<string, Record>, inboxes: map<string, seq<Message>>)

  /** What a request answers and the tables it leaves behind. */
  datatype Step<T> = Step(response: Response<T>, after: Tables)

  /** Where a message sits: the slot of its address in `order`, and its index in that inbox. */
  datatype Position = Position(slot: nat, index: nat)

  ghost predicate NoDup(s: seq<string>)
  {
    forall i, j :: 0 <= i < j < |s| ==> s[i] != s[j]
  }

  /** Some message of some inbox carries this id. */
  ghost predicate IdInUse(inboxes: map<string, seq<Message>>, id: string)
  {
    exists a, i :: a in inboxes && 0 <= i < |inboxes[a]| && inboxes[a][i].id == id
  }

  /** No two messages, in one inbox or in two, carry the same id. */
  ghost predicate UniqueIds(inboxes: map<string, seq<Message>>)
  {
    forall a, b, i, j ::
      (a in inboxes && b in inboxes && 0 <= i < |inboxes[a]| && 0 <= j < |inboxes[b]| &&
       inboxes[a][i].id == inboxes[b][j].id) ==> a == b && i == j
  }

  /**
   The invariants the handlers keep: the order lists each key once, both Maps have
   the same keys, every record is stored under its own address and expires ten minutes
   after it was created, and message ids are unique.
   */
  ghost predicate WellFormed(t: Tables)
  {
    && NoDup(t.order)
    && (forall a :: a in t.order <==> a in t.storage)
    && t.storage.Keys == t.inboxes.Keys
    && (forall a :: a in t.storage ==>
          t.storage[a].email == a && t.storage[a].expiresAt == t.storage[a].createdAt + TenMinutes)
    && UniqueIds(t.inboxes)
  }

  /** The empty server, as it starts. */
  lemma EmptyWellFormed()
    ensures WellFormed(Tables([], map[], map[]))
  {
  }

  /** Replacing the inboxes by others with the same keys and unique ids keeps the tables well formed. */
  lemma InboxesChangeKeepsWellFormed(t: Tables, ins: map<string, seq<Message>>)
    requires WellFormed(t) && ins.Keys == t.inboxes.Keys && UniqueIds(ins)
    ensures WellFormed(t.(inboxes := ins))
  {
  }

  /* ---------------------------------------------------------------- generate */

  /**
   The body of the generate-email handler, with one reading of the clock for both
   timestamps. Map.set replaces an existing record and inbox.
   */
  function Created(t: Tables, address: string, now: nat): Tables
  {
    Tables(if address in t.storage then t.order else t.order + [address],
           t.storage[address := Record(address, now, now + TenMinutes)],
           t.inboxes[address := []])
  }

  /**
   Generating stores a fresh record and an empty inbox for the address, replacing
   whatever was stored there, keeps the address's place in the order if it had one,
   and leaves every other address as it was.
   */
  lemma CreateOverwrites(t: Tables, address: string, now: nat)
    requires WellFormed(t)
    ensures var t' := Created(t, address, now);
      && WellFormed(t')
      && t'.storage[address] == Record(address, now, now + TenMinutes)
      && t'.storage[address].expiresAt == t'.storage[address].createdAt + TenMinutes
      && t'.inboxes[address] == []
      && (address in t.storage ==> t'.order == t.order)
      && (address !in t.storage ==> t'.order == t.order + [address])
      && (forall a :: a != address ==> (a in t'.storage <==> a in t.storage))
      && (forall a :: a != address && a in t.storage ==>
            t'.storage[a] == t.storage[a] && t'.inboxes[a] == t.inboxes[a])
  {
    var t' := Created(t, address, now);
    forall a, b, i, j |
      a in t'.inboxes && b in t'.inboxes && 0 <= i < |t'.inboxes[a]| && 0 <= j < |t'.inboxes[b]| &&
      t'.inboxes[a][i].id == t'.inboxes[b][j].id
      ensures a == b && i == j
    {
      assert a != address && b != address;
      assert t'.inboxes[a] == t.inboxes[a] && t'.inboxes[b] == t.inboxes[b];
    }
    if address !in t.storage {
      assert address !in t.order;
      forall i, j | 0 <= i < j < |t'.order| ensures t'.order[i] != t'.order[j] {
        if j == |t.order| {
          assert t.order[i] in t.order;
        }
      }
    }
  }

  /* ---------------------------------------------------------------- sweep */

  /** The test of cleanupExpiredEmails: more than ten minutes since creation, strictly. */
  predicate Expired(r: Record, now: nat)
  {
    now - r.createdAt > TenMinutes
  }

  /** The address has a record and that record is expired. */
  predicate Doomed(storage: map<string, Record>, a: string, now: nat)
  {
    a in storage && Expired(storage[a], now)
  }

  /**
   `r` is `s` with some elements left out, the rest in their order: matching
   `r[0]` against the first element of `s` that equals it loses no solution.
   */
  ghost predicate Subsequence(r: seq<string>, s: seq<string>)
    decreases |s|
  {
    if r == [] then true
    else if s == [] then false
    else if r[0] == s[0] then Subsequence(r[1..], s[1..])
    else Subsequence(r, s[1..])
  }

  /** What Subsequence means: any two elements of `r` occur in `s` in the same order. */
  lemma {:induction false} SubsequenceKeepsOrder(r: seq<string>, s: seq<string>)
    requires Subsequence(r, s)
    ensures forall i :: 0 <= i < |r| ==> r[i] in s
    ensures forall i, j :: 0 <= i < j < |r| ==>
      exists p, q :: 0 <= p < q < |s| && r[i] == s[p] && r[j] == s[q]
    decreases |s|
  {
    if r != [] {
      if r[0] == s[0] {
        SubsequenceKeepsOrder(r[1..], s[1..]);
        forall i, j | 0 <= i < j < |r|
          ensures exists p, q :: 0 <= p < q < |s| && r[i] == s[p] && r[j] == s[q]
        {
          assert r[j] == r[1..][j - 1];
          var q' :| 0 <= q' < |s[1..]| && s[1..][q'] == r[j];
          if i == 0 {
            assert r[i] == s[0] && r[j] == s[q' + 1];
          } else {
            assert r[i] == r[1..][i - 1];
            var p', q'' :| 0 <= p' < q'' < |s[1..]| && r[1..][i - 1] == s[1..][p'] && r[1..][j - 1] == s[1..][q''];
            assert r[i] == s[p' + 1] && r[j] == s[q'' + 1];
          }
        }
        forall i | 0 <= i < |r| ensures r[i] in s {
          if i > 0 {
            assert r[i] == r[1..][i - 1];
          }
        }
      } else {
        SubsequenceKeepsOrder(r, s[1..]);
        forall i, j | 0 <= i < j < |r|
          ensures exists p, q :: 0 <= p < q < |s| && r[i] == s[p] && r[j] == s[q]
        {
          var p', q' :| 0 <= p' < q' < |s[1..]| && r[i] == s[1..][p'] && r[j] == s[1..][q'];
          assert r[i] == s[p' + 1] && r[j] == s[q' + 1];
        }
      }
    }
  }

  /** The keys, in their order, that a sweep at `now` keeps. */
  function KeepLive(keys: seq<string>, storage: map<string, Record>, now: nat): (r: seq<string>)
    ensures |r| <= |keys|
    ensures forall a :: a in r <==> a in keys && !Doomed(storage, a, now)
    ensures Subsequence(r, keys)
  {
    if keys == [] then []
    else
      assert forall a :: a in keys <==> a == keys[0] || a in keys[1..];
      var rest := KeepLive(keys[1..], storage, now);
      if Doomed(storage, keys[0], now) then
        assert rest != [] ==> rest[0] in rest && rest[0] != keys[0];
        rest
      else
        assert ([keys[0]] + rest)[1..] == rest;
        [keys[0]] + rest
  }

  /** The kept keys are listed once each when the keys were. */
  lemma {:induction false} KeepLiveNoDup(keys: seq<string>, storage: map<string, Record>, now: nat)
    requires NoDup(keys)
    ensures NoDup(KeepLive(keys, storage, now))
  {
    if keys != [] {
      var rest := KeepLive(keys[1..], storage, now);
      assert NoDup(keys[1..]) by {
        forall i, j | 0 <= i < j < |keys[1..]| ensures keys[1..][i] != keys[1..][j] {
          assert keys[1..][i] == keys[i + 1] && keys[1..][j] == keys[j + 1];
        }
      }
      KeepLiveNoDup(keys[1..], storage, now);
      if !Doomed(storage, keys[0], now) {
        assert keys[0] !in rest;
        forall i, j | 0 <= i < j < |[keys[0]] + rest| ensures ([keys[0]] + rest)[i] != ([keys[0]] + rest)[j] {
          if i == 0 {
            assert ([keys[0]] + rest)[j] in rest;
          } else {
            assert ([keys[0]] + rest)[i] == rest[i - 1] && ([keys[0]] + rest)[j] == rest[j - 1];
          }
        }
      }
    }
  }

  /** A sweep that has kept `kept` of the keys before slot i keeps the next key exactly when it is live. */
  lemma KeepLiveStep(kept: seq<string>, keys: seq<string>, storage: map<string, Record>, now: nat, i: nat)
    requires i < |keys|
    requires kept + KeepLive(keys[i..], storage, now) == KeepLive(keys, storage, now)
    ensures Doomed(storage, keys[i], now) ==>
      kept + KeepLive(keys[i + 1..], storage, now) == KeepLive(keys, storage, now)
    ensures !Doomed(storage, keys[i], now) ==>
      (kept + [keys[i]]) + KeepLive(keys[i + 1..], storage, now) == KeepLive(keys, storage, now)
  {
    assert keys[i..][1..] == keys[i + 1..];
    var rest := KeepLive(keys[i + 1..], storage, now);
    if !Doomed(storage, keys[i], now) {
      assert (kept + [keys[i]]) + rest == kept + ([keys[i]] + rest);
    } else {
      assert [] + rest == rest;
    }
  }

  /** cleanupExpiredEmails at `now`: the doomed addresses leave both Maps and the order. */
  function Swept(t: Tables, now: nat): Tables
  {
    Tables(KeepLive(t.order, t.storage, now),
           map a | a in t.storage && !Doomed(t.storage, a, now) :: t.storage[a],
           map a | a in t.inboxes && !Doomed(t.storage, a, now) :: t.inboxes[a])
  }

  /** What is left of a Map while a sweep is under way: the entries still pending and the live ones. */
  function Unswept<V>(m: map<string, V>, storage: map<string, Record>, now: nat, pending: seq<string>): (r: map<string, V>)
    ensures forall a :: a in r <==> a in m && (a in pending || !Doomed(storage, a, now))
    ensures forall a :: a in r ==> r[a] == m[a]
  {
    map a | a in m && (a in pending || !Doomed(storage, a, now)) :: m[a]
  }

  /** Visiting the next key of a sweep deletes it exactly when it is doomed. */
  lemma UnsweptStep<V>(m: map<string, V>, storage: map<string, Record>, now: nat, keys: seq<string>, i: nat)
    requires i < |keys| && NoDup(keys)
    ensures Doomed(storage, keys[i], now) ==>
      Unswept(m, storage, now, keys[i + 1..]) == Unswept(m, storage, now, keys[i..]) - {keys[i]}
    ensures !Doomed(storage, keys[i], now) ==>
      Unswept(m, storage, now, keys[i + 1..]) == Unswept(m, storage, now, keys[i..])
  {
  }

  /** Before a sweep visits any key, nothing is removed; once it has visited all, the doomed keys are gone. */
  lemma UnsweptEnds<V>(m: map<string, V>, storage: map<string, Record>, now: nat, keys: seq<string>)
    requires forall a :: a in m ==> a in keys
    ensures Unswept(m, storage, now, keys) == m
    ensures Unswept(m, storage, now, []) == map a | a in m && !Doomed(storage, a, now) :: m[a]
  {
  }

  /**
   A sweep removes from both Maps exactly the addresses created more than ten minutes
   before `now`; every other address keeps its record and its inbox (and its relative
   place, by SweepKeepsOrder).
   */
  lemma SweepRemovesExactlyExpired(t: Tables, now: nat)
    requires WellFormed(t)
    ensures var t' := Swept(t, now);
      && WellFormed(t')
      && (forall a :: a in t'.storage <==> a in t.storage && !Expired(t.storage[a], now))
      && (forall a :: a in t'.inboxes <==> a in t.storage && !Expired(t.storage[a], now))
      && (forall a :: a in t'.storage ==> t'.storage[a] == t.storage[a] && t'.inboxes[a] == t.inboxes[a])
      && (forall a :: a in t'.order <==> a in t.order && !Expired(t.storage[a], now))
  {
    var t' := Swept(t, now);
    KeepLiveNoDup(t.order, t.storage, now);
    forall a, b, i, j |
      a in t'.inboxes && b in t'.inboxes && 0 <= i < |t'.inboxes[a]| && 0 <= j < |t'.inboxes[b]| &&
      t'.inboxes[a][i].id == t'.inboxes[b][j].id
      ensures a == b && i == j
    {
      assert t'.inboxes[a] == t.inboxes[a] && t'.inboxes[b] == t.inboxes[b];
    }
  }

  /** The addresses a sweep keeps stay in their relative order. */
  lemma SweepKeepsOrder(t: Tables, now: nat)
    ensures var t' := Swept(t, now);
      forall i, j :: 0 <= i < j < |t'.order| ==>
        exists p, q :: 0 <= p < q < |t.order| && t'.order[i] == t.order[p] && t'.order[j] == t.order[q]
  {
    SubsequenceKeepsOrder(Swept(t, now).order, t.order);
  }

  /** An address swept for its age is gone: its inbox is not found and mail to it is refused. */
  lemma SweptAddressIsGone(t: Tables, address: string, now: nat, m: Message)
    requires address in t.storage && Expired(t.storage[address], now)
    ensures InboxOf(Swept(t, now), address) == NotFound
    ensures Received(Swept(t, now), address, m) == Step(NotFound, Swept(t, now))
  {
  }

  /** The comparison is strict: an address exactly ten minutes old survives the sweep. */
  lemma SweepSparesExactlyTenMinutes(t: Tables, address: string, now: nat)
    requires address in t.storage && now == t.storage[address].createdAt + TenMinutes
    ensures address in Swept(t, now).storage
    ensures address in t.inboxes ==> address in Swept(t, now).inboxes
  {
  }

  /* ---------------------------------------------------------------- inbox */

  /**
   The inbox handler: presence in emailStorage decides, expiresAt is not looked at;
   `emailInboxes.get(email) || []` supplies an empty list for a missing inbox.
   */
  function InboxOf(t: Tables, address: string): (r: Response<seq<Message>>)
    ensures r.Ok? <==> address in t.storage
    ensures r.Ok? && address in t.inboxes ==> r.value == t.inboxes[address]
    ensures r.Ok? && address !in t.inboxes ==> r.value == []
  {
    if address !in t.storage then NotFound
    else Ok(if address in t.inboxes then t.inboxes[address] else [])
  }

  /**
   Until a sweep removes it, an address past its expiry instant is still served:
   its inbox is returned and mail to it is accepted.
   */
  lemma ExpiredStillServed(t: Tables, address: string, now: nat, m: Message)
    requires WellFormed(t)
    requires address in t.storage && t.storage[address].expiresAt < now
    ensures InboxOf(t, address) == Ok(t.inboxes[address])
    ensures Received(t, address, m).response == Ok(())
  {
  }

  /* ---------------------------------------------------------------- webhook */

  /** `timestamp || Date.now()`: an absent or zero timestamp is replaced by the arrival time. */
  function Stamp(supplied: Option<int>, now: nat): (r: int)
    ensures supplied == None || supplied == Some(0) ==> r == now
    ensures supplied.Some? && supplied.value != 0 ==> r == supplied.value
  {
    if supplied.Some? && supplied.value != 0 then supplied.value else now
  }

  /** The message the webhook builds: a fresh id, the payload's fields, unread. */
  function NewMessage(id: string, from: string, subject: string, body: string, supplied: Option<int>, now: nat): (m: Message)
    ensures m.id == id && m.from == from && m.subject == subject && m.body == body
    ensures !m.read
    ensures m.timestamp == Stamp(supplied, now)
  {
    Message(id, from, subject, body, Stamp(supplied, now), false)
  }

  /** The body of the webhook handler: push onto the inbox of a known address, else 404. */
  function Received(t: Tables, to: string, m: Message): Step<()>
  {
    if to in t.inboxes then Step(Ok(()), t.(inboxes := t.inboxes[to := t.inboxes[to] + [m]]))
    else Step(NotFound, t)
  }

  /**
   Mail to a known address is appended, as the last message, to that inbox alone;
   mail to an unknown address is refused and changes nothing.
   */
  lemma ReceiveAppends(t: Tables, to: string, m: Message)
    requires WellFormed(t) && !IdInUse(t.inboxes, m.id)
    ensures var s := Received(t, to, m);
      && WellFormed(s.after)
      && (to in t.storage ==>
            && s.response == Ok(())
            && s.after.order == t.order && s.after.storage == t.storage
            && s.after.inboxes.Keys == t.inboxes.Keys
            && s.after.inboxes[to] == t.inboxes[to] + [m]
            && (forall a :: a in t.inboxes && a != to ==> s.after.inboxes[a] == t.inboxes[a]))
      && (to !in t.storage ==> s.response == NotFound && s.after == t)
  {
  }

  /* ---------------------------------------------------------------- lookup by id */

  /** Array.prototype.findIndex on the message ids: the first index holding `id`, or -1. */
  function FindIndex(s: seq<Message>, id: string): (r: int)
    ensures -1 <= r < |s|
    ensures r == -1 <==> forall k :: 0 <= k < |s| ==> s[k].id != id
    ensures 0 <= r ==> s[r].id == id && forall k :: 0 <= k < r ==> s[k].id != id
  {
    if s == [] then -1
    else if s[0].id == id then 0
    else
      var r := FindIndex(s[1..], id);
      assert forall k :: 1 <= k < |s| ==> s[k] == s[1..][k - 1];
      if r == -1 then -1 else r + 1
  }

  /**
   The search of the get-email and delete-email handlers, from slot `from` on: the
   first address in Map order whose inbox holds `id`, and the first index there.
   */
  function Locate(order: seq<string>, inboxes: map<string, seq<Message>>, id: string, from: nat): (r: Option<Position>)
    requires from <= |order|
    ensures r.Some? ==>
      && from <= r.value.slot < |order| && order[r.value.slot] in inboxes
      && r.value.index == FindIndex(inboxes[order[r.value.slot]], id)
      && (forall j :: from <= j < r.value.slot && order[j] in inboxes ==> FindIndex(inboxes[order[j]], id) == -1)
    ensures r.None? <==> forall j :: from <= j < |order| && order[j] in inboxes ==> FindIndex(inboxes[order[j]], id) == -1
    decreases |order| - from
  {
    if from == |order| then None
    else if order[from] in inboxes && FindIndex(inboxes[order[from]], id) >= 0 then
      Some(Position(from, FindIndex(inboxes[order[from]], id)))
    else Locate(order, inboxes, id, from + 1)
  }

  /**
   In well-formed tables the search finds a message exactly when some message has
   that id, and what it finds is that one message.
   */
  lemma LocateExact(t: Tables, id: string)
    requires WellFormed(t)
    ensures Locate(t.order, t.inboxes, id, 0).None? <==> !IdInUse(t.inboxes, id)
    ensures var r := Locate(t.order, t.inboxes, id, 0);
      r.Some? ==> forall a, i :: a in t.inboxes && 0 <= i < |t.inboxes[a]| && t.inboxes[a][i].id == id ==>
        a == t.order[r.value.slot] && i == r.value.index
  {
  }

  /** The inboxes agree on keys, lengths and ids; they may differ in every other field. */
  ghost predicate SameIds(in1: map<string, seq<Message>>, in2: map<string, seq<Message>>)
  {
    && in1.Keys == in2.Keys
    && (forall a :: a in in1 ==> |in1[a]| == |in2[a]|)
    && (forall a, k :: a in in1 && 0 <= k < |in1[a]| ==> in1[a][k].id == in2[a][k].id)
  }

  /** The search looks at ids only. */
  lemma {:induction false} LocateSeesOnlyIds(order: seq<string>, in1: map<string, seq<Message>>, in2: map<string, seq<Message>>, id: string, from: nat)
    requires from <= |order| && SameIds(in1, in2)
    ensures Locate(order, in1, id, from) == Locate(order, in2, id, from)
    decreases |order| - from
  {
    if from < |order| {
      var a := order[from];
      if a in in1 {
        assert FindIndex(in1[a], id) == FindIndex(in2[a], id) by {
          assert forall k :: 0 <= k < |in1[a]| ==> in1[a][k].id == in2[a][k].id;
        }
      }
      LocateSeesOnlyIds(order, in1, in2, id, from + 1);
    }
  }

  /** Changing fields other than ids keeps ids unique. */
  lemma SameIdsKeepUnique(in1: map<string, seq<Message>>, in2: map<string, seq<Message>>)
    requires SameIds(in1, in2) && UniqueIds(in1)
    ensures UniqueIds(in2)
  {
  }

  /* ---------------------------------------------------------------- get email */

  /** The body of the get-email handler: mark the first match read and return it, else 404. */
  function Opened(t: Tables, id: string): Step<Message>
  {
    match Locate(t.order, t.inboxes, id, 0)
    case None => Step(NotFound, t)
    case Some(p) =>
      var a := t.order[p.slot];
      var m := t.inboxes[a][p.index].(read := true);
      Step(Ok(m), t.(inboxes := t.inboxes[a := t.inboxes[a][p.index := m]]))
  }

  /**
   Reading a message returns it with its read flag set and sets that flag in its
   inbox; nothing else changes. An unknown id is not found and changes nothing.
   */
  lemma OpenMarksRead(t: Tables, id: string)
    requires WellFormed(t)
    ensures var s := Opened(t, id);
      && WellFormed(s.after)
      && s.after.order == t.order && s.after.storage == t.storage
      && (!IdInUse(t.inboxes, id) ==> s == Step(NotFound, t))
      && (forall a, i :: a in t.inboxes && 0 <= i < |t.inboxes[a]| && t.inboxes[a][i].id == id ==>
            && s.response == Ok(t.inboxes[a][i].(read := true))
            && s.after.inboxes == t.inboxes[a := t.inboxes[a][i := t.inboxes[a][i].(read := true)]])
  {
    LocateExact(t, id);
    var s := Opened(t, id);
    assert SameIds(t.inboxes, s.after.inboxes);
    SameIdsKeepUnique(t.inboxes, s.after.inboxes);
  }

  /** Reading the same message twice is the same as reading it once. */
  lemma OpenIdempotent(t: Tables, id: string)
    ensures Opened(Opened(t, id).after, id) == Opened(t, id)
  {
    var s := Opened(t, id);
    assert SameIds(t.inboxes, s.after.inboxes);
    LocateSeesOnlyIds(t.order, t.inboxes, s.after.inboxes, id, 0);
    match Locate(t.order, t.inboxes, id, 0)
    case None =>
    case Some(p) =>
      var a := t.order[p.slot];
      assert s.after.inboxes[a][p.index] == t.inboxes[a][p.index].(read := true);
      assert s.after.inboxes[a][p.index := s.after.inboxes[a][p.index].(read := true)] == s.after.inboxes[a];
  }

  /* ---------------------------------------------------------------- delete email */

  /** Array.prototype.splice(i, 1): the sequence without its element at i. */
  function RemoveAt(s: seq<Message>, i: nat): (r: seq<Message>)
    requires i < |s|
    ensures |r| == |s| - 1
    ensures forall k :: 0 <= k < i ==> r[k] == s[k]
    ensures forall k :: i <= k < |r| ==> r[k] == s[k + 1]
  {
    s[..i] + s[i + 1..]
  }

  /** The body of the delete-email handler: splice out the first match, else 404. */
  function Deleted(t: Tables, id: string): Step<()>
  {
    match Locate(t.order, t.inboxes, id, 0)
    case None => Step(NotFound, t)
    case Some(p) =>
      var a := t.order[p.slot];
      Step(Ok(()), t.(inboxes := t.inboxes[a := RemoveAt(t.inboxes[a], p.index)]))
  }

  /** Splicing one message out of one inbox keeps ids unique and retires that message's id. */
  lemma RemoveKeepsUnique(ins: map<string, seq<Message>>, a: string, k: nat)
    requires a in ins && k < |ins[a]| && UniqueIds(ins)
    ensures UniqueIds(ins[a := RemoveAt(ins[a], k)])
    ensures !IdInUse(ins[a := RemoveAt(ins[a], k)], ins[a][k].id)
  {
  }

  /**
   Deleting removes exactly the message with that id from the inbox holding it; the
   other messages keep their order, other inboxes and the records are untouched, and
   the id is no longer in use. An unknown id is not found and changes nothing.
   */
  lemma DeleteRemovesOne(t: Tables, id: string)
    requires WellFormed(t)
    ensures var s := Deleted(t, id);
      && WellFormed(s.after)
      && s.after.order == t.order && s.after.storage == t.storage
      && !IdInUse(s.after.inboxes, id)
      && (!IdInUse(t.inboxes, id) ==> s == Step(NotFound, t))
      && (forall a, i :: a in t.inboxes && 0 <= i < |t.inboxes[a]| && t.inboxes[a][i].id == id ==>
            && s.response == Ok(())
            && s.after.inboxes == t.inboxes[a := t.inboxes[a][..i] + t.inboxes[a][i + 1..]])
  {
    LocateExact(t, id);
    match Locate(t.order, t.inboxes, id, 0)
    case None =>
    case Some(p) =>
      var a := t.order[p.slot];
      var ins := t.inboxes[a := RemoveAt(t.inboxes[a], p.index)];
      assert Deleted(t, id) == Step(Ok(()), t.(inboxes := ins));
      RemoveKeepsUnique(t.inboxes, a, p.index);
      InboxesChangeKeepsWellFormed(t, ins);
  }

  /* ---------------------------------------------------------------- scenario */

  /** Mail posted to a freshly generated address is the only message of its inbox. */
  lemma CreateThenReceive(t: Tables, address: string, now: nat, m: Message)
    requires WellFormed(t) && !IdInUse(t.inboxes, m.id)
    ensures var s := Received(Created(t, address, now), address, m);
      && s.response == Ok(())
      && WellFormed(s.after)
      && address in s.after.storage
      && s.after.inboxes[address] == [m]
  {
    CreateOverwrites(t, address, now);
    ReceiveAppends(Created(t, address, now), address, m);
  }

  /** Opening the only message of an inbox flags it read there. */
  lemma OpenOnlyMessage(t: Tables, address: string, m: Message)
    requires WellFormed(t) && address in t.storage && t.inboxes[address] == [m]
    ensures Opened(t, m.id).response == Ok(m.(read := true))
    ensures InboxOf(Opened(t, m.id).after, address) == Ok([m.(read := true)])
  {
    OpenMarksRead(t, m.id);
    assert t.inboxes[address][0].id == m.id;
    assert [m][0 := m.(read := true)] == [m.(read := true)];
  }

  /**
   The end-to-end scenario of the service: generate an address, post one message to
   it, list the inbox (one unread message), open the message (flagged read), list again
   (the flag is kept).
   */
  lemma EndToEnd(t: Tables, address: string, now: nat, id: string, from: string, subject: string, body: string, supplied: Option<int>)
    requires WellFormed(t) && !IdInUse(t.inboxes, id)
    ensures var m := NewMessage(id, from, subject, body, supplied, now);
      var s2 := Received(Created(t, address, now), address, m);
      var s3 := Opened(s2.after, id);
      && s2.response == Ok(())
      && InboxOf(s2.after, address) == Ok([m]) && !m.read && m.subject == subject
      && s3.response == Ok(m.(read := true))
      && InboxOf(s3.after, address) == Ok([m.(read := true)])
  {
    var m := NewMessage(id, from, subject, body, supplied, now);
    CreateThenReceive(t, address, now, m);
    OpenOnlyMessage(Received(Created(t, address, now), address, m).after, address, m);
  }
}

/**
 The chat server of smallchat_learn/smallchat-server.c: a sparse table of clients indexed by file
 descriptor, with a cached number of clients and a cached greatest index, served round by round.
 */
module ChatServer {
  import opened Bytes
  import opened ChatCommands
  import opened ChatRound

  class Client {
    const fd: nat
    var name: bytes

    constructor (fd: nat, name: bytes)
      ensures this.fd == fd && this.name == name
    {
      this.fd := fd;
      this.name := name;
    }
  }

  function CountTaken(slots: seq<Slot>): (n: nat)
    ensures n <= |slots|
  {
    if slots == [] then 0
    else CountTaken(slots[..|slots| - 1]) + (if slots[|slots| - 1].Taken? then 1 else 0)
  }

  ghost function Registered(slots: seq<Slot>): set<int> {
    set k | 0 <= k < |slots| && slots[k].Taken?
  }

  lemma RegisteredNext(slots: seq<Slot>, v: Slot)
    ensures Registered(slots + [v]) == if v.Taken? then Registered(slots) + {|slots|} else Registered(slots)
  {
  }

  /** The cached number of clients counts the occupied slots. */
  lemma {:induction false} CountTakenMeans(slots: seq<Slot>)
    ensures CountTaken(slots) == |Registered(slots)|
  {
    if slots != [] {
      var t, v := slots[..|slots| - 1], slots[|slots| - 1];
      CountTakenMeans(t);
      RegisteredNext(t, v);
      assert slots == t + [v];
    }
  }

  lemma {:induction false} CountAfterUpdate(slots: seq<Slot>, i: nat, v: Slot)
    requires i < |slots|
    ensures CountTaken(slots[i := v]) ==
            CountTaken(slots) - (if slots[i].Taken? then 1 else 0) + (if v.Taken? then 1 else 0)
  {
    var last := |slots| - 1;
    var t := slots[i := v];
    if i < last {
      assert t[..last] == slots[..last][i := v];
      CountAfterUpdate(slots[..last], i, v);
    } else {
      assert t[..last] == slots[..last];
    }
  }

  // ----- the scan, on values: `admitted` and `base` are the table and the outboxes at its start

  /** Exactly the ready clients below `n` have been served. */
  ghost predicate Scanned(admitted: seq<Slot>, slots: seq<Slot>, data: map<nat, bytes>, n: nat) {
    && |slots| == |admitted|
    && forall k :: 0 <= k < |slots| ==>
         slots[k] == if k < n && k in data then AfterInput(admitted[k], Parse(data[k])) else admitted[k]
  }

  /** Every client still registered has received what the ready clients below `n` had for it. */
  ghost predicate Heard(admitted: seq<Slot>, slots: seq<Slot>, base: seq<bytes>, out: seq<bytes>,
                        data: map<nat, bytes>, n: nat) {
    && n <= |admitted| && |slots| == |base| == |out|
    && forall k :: 0 <= k < |slots| && slots[k].Taken? ==> out[k] == base[k] + Delivered(admitted, data, k, n)
  }

  lemma HeardNext(admitted: seq<Slot>, data: map<nat, bytes>, before: bytes, k: nat, j: nat)
    requires j < |admitted| && j in data && admitted[j].Taken?
    ensures before + Delivered(admitted, data, k, j) + Reply(admitted[j].name, j, Parse(data[j]), k) ==
            before + Delivered(admitted, data, k, j + 1)
  {
    assert Delivered(admitted, data, k, j + 1) ==
           Delivered(admitted, data, k, j) + Reply(admitted[j].name, j, Parse(data[j]), k);
  }

  lemma ScanStep(admitted: seq<Slot>, now: seq<Slot>, next: seq<Slot>, base: seq<bytes>,
                 out: seq<bytes>, out': seq<bytes>, data: map<nat, bytes>, j: nat)
    requires j < |now| && j in data && now[j].Taken?
    requires Scanned(admitted, now, data, j) && Heard(admitted, now, base, out, data, j)
    requires next == now[j := AfterInput(now[j], Parse(data[j]))] && |out'| == |out|
    requires forall k :: 0 <= k < |next| && next[k].Taken? ==>
               out'[k] == out[k] + Reply(now[j].name, j, Parse(data[j]), k)
    ensures Scanned(admitted, next, data, j + 1) && Heard(admitted, next, base, out', data, j + 1)
  {
    assert now[j] == admitted[j];
    forall k | 0 <= k < |next| && next[k].Taken?
      ensures out'[k] == base[k] + Delivered(admitted, data, k, j + 1)
    {
      assert now[k].Taken?;
      HeardNext(admitted, data, base[k], k, j);
    }
  }

  lemma ScanSkip(admitted: seq<Slot>, now: seq<Slot>, base: seq<bytes>, out: seq<bytes>, data: map<nat, bytes>, j: nat)
    requires j < |now| && j !in data
    requires Scanned(admitted, now, data, j) && Heard(admitted, now, base, out, data, j)
    ensures Scanned(admitted, now, data, j + 1) && Heard(admitted, now, base, out, data, j + 1)
  {
  }

  lemma {:induction false} NobodyElseDelivers(slots: seq<Slot>, data: map<nat, bytes>, k: nat, j: nat, n: nat)
    requires j <= n <= |slots|
    requires forall i :: j <= i < n ==> i !in data
    ensures Delivered(slots, data, k, n) == Delivered(slots, data, k, j)
  {
    if j < n {
      NobodyElseDelivers(slots, data, k, j, n - 1);
    }
  }

  /** When nobody is registered from `j` on, nobody ready was left out. */
  lemma ScanEnd(admitted: seq<Slot>, slots: seq<Slot>, base: seq<bytes>, out: seq<bytes>, data: map<nat, bytes>, j: nat)
    requires Scanned(admitted, slots, data, j) && Heard(admitted, slots, base, out, data, j)
    requires forall i :: i in data ==> i < |admitted| && admitted[i].Taken?
    requires forall i :: j <= i < |slots| ==> slots[i] == Free
    ensures Scanned(admitted, slots, data, |slots|) && Heard(admitted, slots, base, out, data, |slots|)
  {
    assert forall i :: j <= i < |slots| ==> i !in data;
    forall k | 0 <= k < |slots| && slots[k].Taken?
      ensures out[k] == base[k] + Delivered(admitted, data, k, |slots|)
    {
      NobodyElseDelivers(admitted, data, k, j, |slots|);
    }
  }

  lemma RoundEnd(slots: seq<Slot>, e: Event, final: seq<Slot>, before: seq<bytes>, base: seq<bytes>, out: seq<bytes>)
    requires Feasible(slots, e) && |before| == |slots|
    requires base == if e.accepted.Someone? then before[e.accepted.fd := WELCOME] else before
    requires Scanned(Admit(slots, e.accepted), final, e.data, MAX_CLIENTS)
    requires Heard(Admit(slots, e.accepted), final, base, out, e.data, MAX_CLIENTS)
    ensures final == SlotsAfter(slots, e)
    ensures forall k :: 0 <= k < |final| && final[k].Taken? ==> out[k] == Received(slots, e, before[k], k)
  {
  }

  class Chat {
    var numclients: int
    var maxclient: int
    const clients: array<Client?>
    /** What has been written to each descriptor since it was accepted. */
    const outbox: array<bytes>
    /** The table as values: who is registered under which name. */
    ghost var slots: seq<Slot>

    ghost predicate Valid()
      reads this, clients, ClientSet()
    {
      && clients.Length == outbox.Length == |slots| == MAX_CLIENTS
      && (forall j :: 0 <= j < MAX_CLIENTS ==>
            if clients[j] == null then slots[j] == Free
            else clients[j].fd == j && slots[j] == Taken(clients[j].name))
      && numclients == CountTaken(slots)
      && -1 <= maxclient < MAX_CLIENTS
      && (maxclient >= 0 ==> slots[maxclient].Taken?)
      && (forall j :: maxclient < j < MAX_CLIENTS ==> slots[j] == Free)
    }

    ghost function ClientSet(): set<Client>
      reads this, clients
    {
      set j | 0 <= j < clients.Length && clients[j] != null :: clients[j]
    }

    /** `initChat` (lines 63-74), without the listening socket. */
    constructor ()
      ensures Valid() && fresh(clients) && fresh(outbox)
      ensures slots == seq(MAX_CLIENTS, _ => Free)
    {
      clients := new Client?[MAX_CLIENTS](_ => null);
      outbox := new bytes[MAX_CLIENTS](_ => []);
      numclients, maxclient := 0, -1;
      slots := seq(MAX_CLIENTS, _ => Free);
      new;
      NoneTaken(slots);
    }

    static lemma {:induction false} NoneTaken(slots: seq<Slot>)
      requires forall j :: 0 <= j < |slots| ==> slots[j] == Free
      ensures CountTaken(slots) == 0
    {
      if slots != [] {
        NoneTaken(slots[..|slots| - 1]);
      }
    }

    /** `createClient` (lines 29-42); the descriptor is free, as the source asserts. */
    method CreateClient(fd: nat) returns (c: Client)
      requires Valid() && fd < MAX_CLIENTS && slots[fd] == Free
      modifies this, clients, outbox
      ensures Valid() && fresh(c) && clients[fd] == c
      ensures slots == old(slots)[fd := Taken(UserName(fd))]
      ensures forall j :: 0 <= j < MAX_CLIENTS && j != fd ==> clients[j] == old(clients[j])
      ensures outbox[..] == old(outbox[..])[fd := []]
    {
      c := new Client(fd, UserName(fd));
      CountAfterUpdate(slots, fd, Taken(UserName(fd)));
      clients[fd] := c;
      slots := slots[fd := Taken(UserName(fd))];
      outbox[fd] := [];
      if fd > maxclient {
        maxclient := fd;
      }
      numclients := numclients + 1;
    }

    /** `freeClient` (lines 44-61). */
    method FreeClient(c: Client)
      requires Valid() && c.fd < MAX_CLIENTS && clients[c.fd] == c
      modifies this, clients
      ensures Valid() && slots == old(slots)[c.fd := Free]
      ensures clients[..] == old(clients[..])[c.fd := null]
    {
      CountAfterUpdate(slots, c.fd, Free);
      clients[c.fd] := null;
      slots := slots[c.fd := Free];
      numclients := numclients - 1;
      if maxclient == c.fd {
        var j := maxclient - 1;
        while j >= 0
          invariant -1 <= j < c.fd
          invariant forall i :: j < i < MAX_CLIENTS ==> slots[i] == Free
        {
          if clients[j] != null {
            maxclient := j;
            break;
          }
          j := j - 1;
        }
        if j == -1 {
          maxclient := -1;
        }
      }
    }

    method Write(fd: nat, s: bytes)
      requires fd < outbox.Length
      modifies outbox
      ensures outbox[..] == old(outbox[..])[fd := old(outbox[fd]) + s]
    {
      outbox[fd] := outbox[fd] + s;
    }

    /** `sendMsgToAllClientsBut` (lines 77-83): everyone registered but the excluded one. */
    method SendMsgToAllClientsBut(excluded: nat, s: bytes)
      requires Valid()
      modifies outbox
      ensures Valid()
      ensures forall k :: 0 <= k < MAX_CLIENTS ==>
                outbox[k] == old(outbox[k]) + (if slots[k].Taken? && k != excluded then s else [])
    {
      var j := 0;
      while j <= maxclient
        invariant 0 <= j <= maxclient + 1
        invariant forall k :: 0 <= k < MAX_CLIENTS ==>
                    outbox[k] == old(outbox[k]) + (if k < j && slots[k].Taken? && k != excluded then s else [])
      {
        if clients[j] != null && clients[j].fd != excluded {
          outbox[clients[j].fd] := outbox[clients[j].fd] + s;
        }
        j := j + 1;
      }
    }

    /** Lines 131-162: what the input of client `j`, once parsed, does. */
    method Obey(j: nat, input: Input)
      requires Valid() && j < MAX_CLIENTS && slots[j].Taken? && !input.Hangup?
      modifies this, outbox, clients[j]
      ensures Valid()
      ensures slots == old(slots)[j := AfterInput(old(slots[j]), input)]
      ensures forall k :: 0 <= k < MAX_CLIENTS && slots[k].Taken? ==>
                outbox[k] == old(outbox[k]) + Reply(old(slots[j].name), j, input, k)
    {
      var c := clients[j];
      match input {
        case Rename(arg) =>
          CountAfterUpdate(slots, j, Taken(arg));
          c.name := arg;
          slots := slots[j := Taken(arg)];
        case Unsupported =>
          Write(c.fd, UNSUPPORTED);
        case Say(text) =>
          SendMsgToAllClientsBut(j, Message(c.name, text));
        case Hangup =>
          assert false;
      }
    }

    /** Lines 121-162 for one ready client `j` whose read yields `data`. */
    method ServeRead(j: nat, data: bytes, readbuf: array<byte>)
      requires Valid() && j < MAX_CLIENTS && slots[j].Taken? && |data| < READBUF == readbuf.Length
      modifies this, clients, outbox, readbuf, clients[j]
      ensures Valid()
      ensures slots == old(slots)[j := AfterInput(old(slots[j]), Parse(data))]
      ensures forall k :: 0 <= k < MAX_CLIENTS && slots[k].Taken? ==>
                outbox[k] == old(outbox[k]) + Reply(old(slots[j].name), j, Parse(data), k)
      ensures forall k :: 0 <= k < MAX_CLIENTS ==> clients[k] == old(clients[k]) || clients[k] == null
    {
      var nread := Read(data, readbuf);
      if nread <= 0 {
        FreeClient(clients[j]);
      } else {
        var input := ParseBuffer(readbuf, nread);
        Obey(j, input);
      }
    }

    /**
     The same, with what every other registered client hears of a chat message written out: as much of the
     sender's name, `>` and the text as 255 bytes hold.
     */
    method Serve(j: nat, data: bytes, readbuf: array<byte>)
      requires Valid() && j < MAX_CLIENTS && slots[j].Taken? && |data| < READBUF == readbuf.Length
      modifies this, clients, outbox, readbuf, clients[j]
      ensures Valid()
      ensures slots == old(slots)[j := AfterInput(old(slots[j]), Parse(data))]
      ensures forall k :: 0 <= k < MAX_CLIENTS && slots[k].Taken? ==>
                outbox[k] == old(outbox[k]) + Reply(old(slots[j].name), j, Parse(data), k)
      ensures Parse(data).Say? ==>
                var full := old(slots[j].name) + [62] + Parse(data).text;
                forall k :: 0 <= k < MAX_CLIENTS && k != j && slots[k].Taken? ==>
                  outbox[k] == old(outbox[k]) + (if |full| <= 255 then full else full[..255])
      ensures forall k :: 0 <= k < MAX_CLIENTS ==> clients[k] == old(clients[k]) || clients[k] == null
    {
      ServeRead(j, data, readbuf);
      forall k | 0 <= k < MAX_CLIENTS && slots[k].Taken? {
        ReplyBytes(old(slots[j].name), j, data, k);
      }
    }

    static method Read(data: bytes, readbuf: array<byte>) returns (nread: nat)
      requires |data| < readbuf.Length
      modifies readbuf
      ensures nread == |data| && readbuf[..nread] == data
    {
      nread := |data|;
      forall i | 0 <= i < nread {
        readbuf[i] := data[i];
      }
    }

    /** One turn of the scan (lines 121-163). */
    method ScanTurn(j: nat, data: map<nat, bytes>, readbuf: array<byte>, ghost admitted: seq<Slot>, ghost base: seq<bytes>)
      requires Valid() && j < MAX_CLIENTS && readbuf.Length == READBUF
      requires forall i :: i in data ==> i < MAX_CLIENTS && |data[i]| < READBUF
      requires j in data ==> j < |admitted| && admitted[j].Taken?
      requires Scanned(admitted, slots, data, j) && Heard(admitted, slots, base, outbox[..], data, j)
      modifies this, clients, outbox, readbuf, ClientSet()
      ensures Valid() && ClientSet() <= old(ClientSet())
      ensures Scanned(admitted, slots, data, j + 1) == true
      ensures Heard(admitted, slots, base, outbox[..], data, j + 1) == true
    {
      ghost var now, out := slots, outbox[..];
      assert slots[j] == admitted[j];
      if clients[j] != null && j in data {
        assert clients[j] in ClientSet();
        Serve(j, data[j], readbuf);
        ScanStep(admitted, now, slots, base, out, outbox[..], data, j);
      } else {
        ScanSkip(admitted, now, base, out, data, j);
      }
    }

    /**
     The scan of one round (lines 119-164).  The loop bound `maxclient` may drop while it runs, when
     the client with the greatest index disconnects; still every ready client is served.
     */
    method Scan(data: map<nat, bytes>)
      requires Valid()
      requires forall j :: j in data ==> j < MAX_CLIENTS && slots[j].Taken? && |data[j]| < READBUF
      modifies this, clients, outbox, ClientSet()
      ensures Valid()
      ensures Scanned(old(slots), slots, data, MAX_CLIENTS)
      ensures Heard(old(slots), slots, old(outbox[..]), outbox[..], data, MAX_CLIENTS)
      ensures ClientSet() <= old(ClientSet())
    {
      ghost var admitted, base := slots, outbox[..];
      var readbuf := new byte[READBUF](_ => 0);
      var j := 0;
      while j <= maxclient
        invariant 0 <= j <= MAX_CLIENTS && Valid()
        invariant Scanned(admitted, slots, data, j) == true
        invariant Heard(admitted, slots, base, outbox[..], data, j) == true
        invariant ClientSet() <= old(ClientSet())
      {
        ScanTurn(j, data, readbuf, admitted, base);
        j := j + 1;
      }
      ScanEnd(admitted, slots, base, outbox[..], data, j);
    }

    /** The accept of one round (lines 111-117). */
    method Accept(accepted: Accepted)
      requires Valid() && (accepted.Someone? ==> accepted.fd < MAX_CLIENTS && slots[accepted.fd] == Free)
      modifies this, clients, outbox
      ensures Valid() && slots == Admit(old(slots), accepted)
      ensures outbox[..] == if accepted.Someone? then old(outbox[..])[accepted.fd := WELCOME] else old(outbox[..])
      ensures fresh(ClientSet() - old(ClientSet()))
    {
      if accepted.Someone? {
        var c := CreateClient(accepted.fd);
        Write(c.fd, WELCOME);
        assert [] + WELCOME == WELCOME;
      }
    }

    /** One pass of the main loop (lines 110-164): accept, then scan. */
    method EventRound(e: Event)
      requires Valid() && Feasible(slots, e)
      modifies this, clients, outbox, ClientSet()
      ensures Valid() && slots == SlotsAfter(old(slots), e)
      ensures forall k :: 0 <= k < MAX_CLIENTS && slots[k].Taken? ==>
                outbox[k] == Received(old(slots), e, old(outbox[k]), k)
      ensures fresh(ClientSet() - old(ClientSet()))
    {
      Accept(e.accepted);
      ghost var base := outbox[..];
      Scan(e.data);
      RoundEnd(old(slots), e, slots, old(outbox[..]), base, outbox[..]);
    }

    /** The main loop (lines 88-171), for any finite sequence of events. */
    method Run(events: seq<Event>)
      requires Valid() && FeasibleRun(slots, events)
      modifies this, clients, outbox, ClientSet()
      ensures Valid() && slots == SlotsAfterRun(old(slots), events)
      ensures forall k :: 0 <= k < MAX_CLIENTS && slots[k].Taken? ==>
                outbox[k] == ReceivedInRun(old(slots), old(outbox[k]), events, k)
    {
      ghost var start, final := slots, SlotsAfterRun(slots, events);
      var i := 0;
      while i < |events|
        invariant 0 <= i <= |events| && Valid()
        invariant FeasibleRun(slots, events[i..]) && SlotsAfterRun(slots, events[i..]) == final
        invariant forall k :: 0 <= k < MAX_CLIENTS && final[k].Taken? ==>
                    ReceivedInRun(slots, outbox[k], events[i..], k) == ReceivedInRun(start, old(outbox[k]), events, k)
        invariant fresh(ClientSet() - old(ClientSet()))
      {
        ghost var rest, now, out := events[i..], slots, outbox[..];
        assert rest[1..] == events[i + 1..];
        EventRound(events[i]);
        forall k | 0 <= k < MAX_CLIENTS && final[k].Taken?
          ensures ReceivedInRun(slots, outbox[k], rest[1..], k) == ReceivedInRun(now, out[k], rest, k)
        {
          if slots[k] == Free {
            FreshClientStartsEmpty(slots, outbox[k], Received(now, rest[0], out[k], k), rest[1..], k);
          }
        }
        i := i + 1;
      }
    }
  }
}

/**
 What one event round of the chat server does, seen from outside: which names are registered
 afterwards and what each client receives.
 */
module ChatRound {
  import opened Bytes
  import opened ChatCommands

  const MAX_CLIENTS: nat := 100

  /** The longest message is one byte less than the message buffer. */
  const MESSAGE_MAX: nat := 255

  const WELCOME: bytes := Ascii("Welcome to the QQ chat!\n Use /name <name> to set your name.\n")
  const UNSUPPORTED: bytes := Ascii("Unsupported command.\n")

  datatype Slot = Free | Taken(name: bytes)

  datatype Accepted = NoOne | Someone(fd: nat)

  /** One return of `select`: at most one new descriptor, and what each ready client's read yields. */
  datatype Event = Event(accepted: Accepted, data: map<nat, bytes>)

  function UserName(fd: nat): bytes {
    Ascii("user:") + Decimal(fd)
  }

  ghost predicate Clean(name: bytes) {
    NUL !in name && CR !in name && LF !in name
  }

  ghost predicate AllClean(slots: seq<Slot>) {
    forall k :: 0 <= k < |slots| && slots[k].Taken? ==> Clean(slots[k].name)
  }

  /** The kernel reports only registered clients as ready, and accepts on a free descriptor. */
  ghost predicate Feasible(slots: seq<Slot>, e: Event) {
    && |slots| == MAX_CLIENTS
    && (e.accepted.Someone? ==> e.accepted.fd < MAX_CLIENTS && slots[e.accepted.fd] == Free)
    && (forall j :: j in e.data ==> j < MAX_CLIENTS && slots[j].Taken? && |e.data[j]| < READBUF)
  }

  /** The table after the accept, which comes before the scan. */
  function Admit(slots: seq<Slot>, accepted: Accepted): (r: seq<Slot>)
    requires accepted.Someone? ==> accepted.fd < |slots|
    ensures |r| == |slots|
  {
    if accepted.Someone? then slots[accepted.fd := Taken(UserName(accepted.fd))] else slots
  }

  /** What becomes of a client whose read means `input`. */
  function AfterInput(slot: Slot, input: Input): Slot {
    match input
    case Hangup => Free
    case Rename(n) => Taken(n)
    case Unsupported => slot
    case Say(_) => slot
  }

  function Message(name: bytes, text: bytes): (m: bytes)
    ensures |m| <= MESSAGE_MAX
  {
    Take(name + [GREATER] + text, MESSAGE_MAX)
  }

  /** The bytes of a message: as much of the name, `>` and the text as 255 bytes hold. */
  lemma MessageBytes(name: bytes, text: bytes)
    ensures var m, full := Message(name, text), |name| + 1 + |text|;
      && |m| == (if full <= 255 then full else 255)
      && forall i :: 0 <= i < |m| ==>
           m[i] == if i < |name| then name[i] else if i == |name| then 62 else text[i - |name| - 1]
  {
  }

  /** What client `k` receives because client `j`, called `name`, sent `input`. */
  function Reply(name: bytes, j: nat, input: Input, k: nat): bytes {
    match input
    case Hangup => []
    case Rename(_) => []
    case Unsupported => if k == j then UNSUPPORTED else []
    case Say(text) => if k != j then Message(name, text) else []
  }

  /** Slot k of the table after the round. */
  function SlotAfter(slots: seq<Slot>, e: Event, k: nat): Slot
    requires e.accepted.Someone? ==> e.accepted.fd < |slots|
    requires k < |slots|
  {
    var slot := Admit(slots, e.accepted)[k];
    if k in e.data then AfterInput(slot, Parse(e.data[k])) else slot
  }

  function SlotsAfter(slots: seq<Slot>, e: Event): (r: seq<Slot>)
    requires e.accepted.Someone? ==> e.accepted.fd < |slots|
    ensures |r| == |slots|
  {
    seq(|slots|, k requires 0 <= k < |slots| => SlotAfter(slots, e, k))
  }

  /** What ready client `j` sends to client `k` in this round. */
  function DeliveredBy(slots: seq<Slot>, data: map<nat, bytes>, k: nat, j: nat): bytes
    requires j < |slots|
  {
    if j in data && slots[j].Taken? then Reply(slots[j].name, j, Parse(data[j]), k) else []
  }

  /** What the ready clients below `n` send to client `k`, by ascending sender; `slots` names them. */
  function Delivered(slots: seq<Slot>, data: map<nat, bytes>, k: nat, n: nat): bytes
    requires n <= |slots|
  {
    if n == 0 then []
    else Delivered(slots, data, k, n - 1) + DeliveredBy(slots, data, k, n - 1)
  }

  /** Everything client `k` has received by the end of the round, given `before` at its start. */
  function Received(slots: seq<Slot>, e: Event, before: bytes, k: nat): bytes
    requires e.accepted.Someone? ==> e.accepted.fd < |slots|
  {
    (if e.accepted == Someone(k) then WELCOME else before) +
    Delivered(Admit(slots, e.accepted), e.data, k, |slots|)
  }

  lemma UserNameIsClean(fd: nat)
    ensures Clean(UserName(fd))
  {
    forall b | b in UserName(fd) ensures b != NUL && b != CR && b != LF {
      assert b in Ascii("user:") || b in Decimal(fd);
      var i :| 0 <= i < |UserName(fd)| && UserName(fd)[i] == b;
      if i >= 5 {
        assert b == Decimal(fd)[i - 5];
      }
    }
  }

  /** The initial name spells out "user:" and then the descriptor in decimal. */
  lemma UserNameReads(fd: nat)
    ensures UserName(fd) == [117, 115, 101, 114, 58] + Decimal(fd)
    ensures DecimalValue(UserName(fd)[5..]) == fd
  {
    assert UserName(fd)[5..] == Decimal(fd);
    DecimalRoundTrip(fd);
  }

  /** Two descriptors never get the same initial name. */
  lemma UserNamesDiffer(a: nat, b: nat)
    requires a != b
    ensures UserName(a) != UserName(b)
  {
    DecimalRoundTrip(a);
    DecimalRoundTrip(b);
    assert UserName(a)[5..] == Decimal(a) && UserName(b)[5..] == Decimal(b);
  }

  /** A round never puts CR, LF or NUL into a name. */
  lemma NamesStayClean(slots: seq<Slot>, e: Event)
    requires AllClean(slots) && Feasible(slots, e)
    ensures AllClean(SlotsAfter(slots, e))
  {
    forall k | 0 <= k < |slots| && SlotsAfter(slots, e)[k].Taken? ensures Clean(SlotsAfter(slots, e)[k].name) {
      if e.accepted == Someone(k) {
        UserNameIsClean(k);
      }
      if k in e.data && Parse(e.data[k]).Rename? {
        RenameIsClean(e.data[k], Parse(e.data[k]).name);
      }
    }
  }

  // ----- what the table and the outboxes of a round hold, byte by byte

  /**
   A client that is not ready keeps its name; one whose read yields nothing is gone; a rename takes effect; any
   other input leaves the name alone.  A newcomer is called `user:` and its descriptor.
   */
  lemma TableAfterRound(slots: seq<Slot>, e: Event, k: nat)
    requires Feasible(slots, e) && k < 100
    ensures var after := SlotsAfter(slots, e)[k];
      if e.accepted == Someone(k) then after == Taken([117, 115, 101, 114, 58] + Decimal(k))
      else if k !in e.data then after == slots[k]
      else if e.data[k] == [] then after == Free
      else if Parse(e.data[k]).Rename? then after == Taken(Parse(e.data[k]).name)
      else after == slots[k]
  {
    UserNameReads(k);
  }

  /** The bytes that one ready client `j`, called `name`, causes for client `k`. */
  lemma ReplyBytes(name: bytes, j: nat, data: bytes, k: nat)
    ensures var r, input := Reply(name, j, Parse(data), k), Parse(data);
      && (input.Say? && k != j ==>
            var full := name + [62] + input.text; r == if |full| <= 255 then full else full[..255])
      && (input.Unsupported? && k == j ==> r == Ascii("Unsupported command.\n"))
      && ((input.Say? && k == j) || (input.Unsupported? && k != j) || input.Rename? || data == [] ==> r == [])
  {
  }

  /** What a client has at the end of a round: its welcome, if it is new, or what it had, then the replies. */
  lemma ReceivedMeans(slots: seq<Slot>, e: Event, before: bytes, k: nat)
    requires Feasible(slots, e)
    ensures var delivered := Delivered(Admit(slots, e.accepted), e.data, k, |slots|);
      Received(slots, e, before, k) ==
      if e.accepted == Someone(k)
      then Ascii("Welcome to the QQ chat!\n Use /name <name> to set your name.\n") + delivered
      else before + delivered
  {
  }

  lemma SentByEither(slots: seq<Slot>, low: map<nat, bytes>, high: map<nat, bytes>, k: nat, j: nat)
    requires j < |slots|
    ensures DeliveredBy(slots, low + high, k, j) ==
            if j in high then DeliveredBy(slots, high, k, j) else DeliveredBy(slots, low, k, j)
    ensures j !in low ==> DeliveredBy(slots, low, k, j) == []
    ensures j !in high ==> DeliveredBy(slots, high, k, j) == []
  {
  }

  lemma Regroup(x: bytes, y: bytes, l: bytes, h: bytes, both: bytes)
    requires both == if h == [] then l else h
    requires l == [] || (y == [] && h == [])
    ensures (x + y) + both == (x + l) + (y + h)
  {
  }

  /** What the senders below a bound have to say is heard before what the senders above it do. */
  lemma {:induction false} InSenderOrder(slots: seq<Slot>, low: map<nat, bytes>, high: map<nat, bytes>, k: nat, n: nat)
    requires n <= |slots|
    requires forall i, j :: i in low && j in high ==> i < j
    ensures Delivered(slots, low + high, k, n) == Delivered(slots, low, k, n) + Delivered(slots, high, k, n)
  {
    if n > 0 {
      InSenderOrder(slots, low, high, k, n - 1);
      if n - 1 in low {
        NoneBelow(slots, high, k, n - 1);
      }
      SentByEither(slots, low, high, k, n - 1);
      Regroup(Delivered(slots, low, k, n - 1), Delivered(slots, high, k, n - 1),
              DeliveredBy(slots, low, k, n - 1), DeliveredBy(slots, high, k, n - 1),
              DeliveredBy(slots, low + high, k, n - 1));
    }
  }

  lemma {:induction false} NoneBelow(slots: seq<Slot>, data: map<nat, bytes>, k: nat, n: nat)
    requires n <= |slots| && forall j :: j in data ==> n < j
    ensures Delivered(slots, data, k, n) == []
  {
    if n > 0 {
      NoneBelow(slots, data, k, n - 1);
    }
  }

  /** A single ready client is heard once, under the name it has in `slots`. */
  lemma {:induction false} SingleSpeaker(slots: seq<Slot>, data: map<nat, bytes>, j: nat, k: nat, n: nat)
    requires n <= |slots| && j < |slots| && slots[j].Taken? && data.Keys == {j}
    ensures Delivered(slots, data, k, n) == if j < n then Reply(slots[j].name, j, Parse(data[j]), k) else []
  {
    if n > 0 {
      SingleSpeaker(slots, data, j, k, n - 1);
    }
  }

  // ----- whole runs

  ghost predicate FeasibleRun(slots: seq<Slot>, events: seq<Event>)
    decreases |events|
  {
    events == [] || (Feasible(slots, events[0]) && FeasibleRun(SlotsAfter(slots, events[0]), events[1..]))
  }

  ghost function SlotsAfterRun(slots: seq<Slot>, events: seq<Event>): (r: seq<Slot>)
    requires FeasibleRun(slots, events)
    ensures |r| == |slots|
    decreases |events|
  {
    if events == [] then slots else SlotsAfterRun(SlotsAfter(slots, events[0]), events[1..])
  }

  /** Everything client `k` has received by the end of the run. */
  ghost function ReceivedInRun(slots: seq<Slot>, before: bytes, events: seq<Event>, k: nat): bytes
    requires FeasibleRun(slots, events)
    decreases |events|
  {
    if events == [] then before
    else ReceivedInRun(SlotsAfter(slots, events[0]), Received(slots, events[0], before, k), events[1..], k)
  }

  lemma {:induction false} RunKeepsNamesClean(slots: seq<Slot>, events: seq<Event>)
    requires FeasibleRun(slots, events) && AllClean(slots)
    ensures AllClean(SlotsAfterRun(slots, events))
    decreases |events|
  {
    if events != [] {
      NamesStayClean(slots, events[0]);
      RunKeepsNamesClean(SlotsAfter(slots, events[0]), events[1..]);
    }
  }

  /** A client that is connected at the end but not at the start is owed nothing from before. */
  lemma {:induction false} FreshClientStartsEmpty(slots: seq<Slot>, x: bytes, y: bytes, events: seq<Event>, k: nat)
    requires FeasibleRun(slots, events) && k < |slots| && slots[k] == Free
    requires SlotsAfterRun(slots, events)[k].Taken?
    ensures ReceivedInRun(slots, x, events, k) == ReceivedInRun(slots, y, events, k)
    decreases |events|
  {
    var e := events[0];
    if e.accepted == Someone(k) {
      assert Received(slots, e, x, k) == Received(slots, e, y, k);
    } else {
      FreshClientStartsEmpty(SlotsAfter(slots, e), Received(slots, e, x, k), Received(slots, e, y, k), events[1..], k);
    }
  }
}

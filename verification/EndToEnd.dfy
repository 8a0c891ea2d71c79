/**
 From key presses at a client to the effect at the server: the line editor of
 smallchat_learn/smallchat-client.c composed with the round of smallchat_learn/smallchat-server.c.
 One message written by the client is taken to be one read of the server.
 */
module EndToEnd {
  import opened Bytes
  import opened ChatCommands
  import opened ChatRound
  import opened LineEditor

  /** The longest name that fits on a line after `/name `. */
  const NAME_MAX: nat := 122

  const RENAME_PREFIX: bytes := NAME_COMMAND + [SPACE]

  /** Typing CR-free keys and then CR into an empty editor sends exactly one message. */
  lemma OneLine(keys: bytes)
    requires CR !in keys
    ensures Messages(keys + [CR]) == [Sent(Typed(keys))] && |Sent(Typed(keys))| <= IB_MAX
  {
    NoReturnNoMessage(keys);
    assert (keys + [CR])[..|keys|] == keys;
  }

  lemma {:induction false} TypedHasNoEditKeys(keys: bytes)
    ensures DEL !in Typed(keys) && LF !in Typed(keys)
  {
    if keys != [] {
      TypedHasNoEditKeys(keys[..|keys| - 1]);
    }
  }

  lemma TypedPlain(keys: bytes)
    requires DEL !in keys && LF !in keys && CR !in keys
    ensures Typed(keys) == Take(keys, IB_MAX)
  {
    PrintableIdentity(keys);
    TypedWithoutDelete(keys);
  }

  lemma TypedPlainPrefix(p: bytes, n: bytes)
    requires DEL !in p && LF !in p && CR !in p && DEL !in n && LF !in n && CR !in n && |p| <= IB_MAX
    ensures Typed(p + n) == p + Take(n, IB_MAX - |p|)
  {
    TypedPlain(p + n);
  }

  lemma PrefixIsPlain()
    ensures RENAME_PREFIX == [47, 110, 97, 109, 101, 32]
    ensures |RENAME_PREFIX| == 6 && RENAME_PREFIX[0] == SLASH
    ensures DEL !in RENAME_PREFIX && LF !in RENAME_PREFIX && CR !in RENAME_PREFIX
  {
    assert RENAME_PREFIX == [47, 110, 97, 109, 101, 32];
  }

  function RenameKeys(n: bytes): bytes {
    RENAME_PREFIX + n
  }

  /** The line that `/name n` leaves in the editor: as much of `n` as fits. */
  lemma RenameLine(n: bytes)
    requires DEL !in n && LF !in n && CR !in n
    ensures Typed(RenameKeys(n)) == RenameKeys(Take(n, NAME_MAX))
  {
    PrefixIsPlain();
    TypedPlainPrefix(RENAME_PREFIX, n);
  }

  lemma ParseSentRename(m: bytes)
    requires |m| <= NAME_MAX && NUL !in m && CR !in m && LF !in m
    ensures Parse(Sent(RenameKeys(m))) == Rename(m)
  {
    var line := RenameKeys(m);
    var tail := if |line| < IB_MAX then [LF] else [];
    assert Sent(line) == NAME_COMMAND + [SPACE] + m + tail;
    RenameRoundTrip(m, tail);
  }

  /** What `/name n` typed on one line renames the client to. */
  lemma RenameTakesWhatFits(n: bytes)
    requires NUL !in n && CR !in n && LF !in n && DEL !in n
    ensures Parse(Sent(Typed(RenameKeys(n)))) == Rename(Take(n, NAME_MAX))
  {
    var m := Take(n, NAME_MAX);
    assert forall b :: b in m ==> b in n;
    RenameLine(n);
    ParseSentRename(m);
  }

  /** Whatever is typed, a message within the limits of a line names nobody with an edit key in the name. */
  lemma RenamedFromTyped(keys: bytes, n: bytes)
    requires Parse(Sent(Typed(keys))) == Rename(n)
    ensures TypeableName(n)
  {
    var m := Sent(Typed(keys));
    RenameIsClean(m, n);
    RenameExactly(m, n);
    TypedHasNoEditKeys(keys);
    assert forall b :: b in n ==> b in CommandLine(m);
    assert forall b :: b in CommandLine(m) ==> b in m;
  }

  /** `n` can be typed as a name: it fits on the line and no byte of it edits or ends the line. */
  predicate TypeableName(n: bytes) {
    |n| <= NAME_MAX && NUL !in n && CR !in n && LF !in n && DEL !in n
  }

  /** The typed name is sent as one message, which renames to exactly it. */
  lemma TypeableNameIsSent(n: bytes)
    requires TypeableName(n)
    ensures Messages(RenameKeys(n) + [CR]) == [Sent(Typed(RenameKeys(n)))]
    ensures Parse(Sent(Typed(RenameKeys(n)))) == Rename(n)
  {
    PrefixIsPlain();
    OneLine(RenameKeys(n));
    RenameTakesWhatFits(n);
  }

  /**
   For every `n`, typing `/name n` and CR sends exactly one message and that message renames the client
   to exactly `n`, if and only if `n` has at most 122 bytes and contains no NUL, CR, LF or DEL; for any
   other `n` none of the messages does.
   */
  lemma RenameExactlyWhen(n: bytes)
    ensures var sent := Messages(RenameKeys(n) + [CR]);
      && (|sent| == 1 && Parse(sent[0]) == Rename(n) <==> TypeableName(n))
      && ((exists m :: m in sent && Parse(m) == Rename(n)) <==> TypeableName(n))
  {
    var sent := Messages(RenameKeys(n) + [CR]);
    if TypeableName(n) {
      TypeableNameIsSent(n);
      assert sent[0] in sent;
    }
    if m :| m in sent && Parse(m) == Rename(n) {
      RenameIsClean(m, n);
      PrefixIsPlain();
      OneLine(RenameKeys(n));
      RenamedFromTyped(RenameKeys(n), n);
    }
  }

  /** A round in which client `k` alone sends a rename: it is renamed, and nobody hears anything. */
  lemma RenameRound(slots: seq<Slot>, k: nat, m: bytes, n: bytes, receiver: nat, before: bytes)
    requires |slots| == MAX_CLIENTS && k < MAX_CLIENTS && slots[k].Taken?
    requires |m| < READBUF && Parse(m) == Rename(n)
    ensures var e := Event(NoOne, map[k := m]);
      && Feasible(slots, e)
      && SlotsAfter(slots, e) == slots[k := Taken(n)]
      && Received(slots, e, before, receiver) == before
  {
    QuietRound(slots, map[k := m], receiver, |slots|);
  }

  /** From the keys to the table: the client is renamed to exactly `n`. */
  lemma RenameReachesServer(slots: seq<Slot>, k: nat, n: bytes, receiver: nat, before: bytes)
    requires |slots| == MAX_CLIENTS && k < MAX_CLIENTS && slots[k].Taken?
    requires TypeableName(n)
    ensures |Messages(RenameKeys(n) + [CR])| == 1
    ensures var e := Event(NoOne, map[k := Messages(RenameKeys(n) + [CR])[0]]);
      && Feasible(slots, e)
      && SlotsAfter(slots, e) == slots[k := Taken(n)]
      && Received(slots, e, before, receiver) == before
  {
    TypeableNameIsSent(n);
    RenameRound(slots, k, Sent(Typed(RenameKeys(n))), n, receiver, before);
  }

  lemma {:induction false} QuietRound(slots: seq<Slot>, data: map<nat, bytes>, receiver: nat, n: nat)
    requires n <= |slots|
    requires forall j :: j in data ==> Parse(data[j]).Rename?
    ensures Delivered(slots, data, receiver, n) == []
  {
    if n > 0 {
      QuietRound(slots, data, receiver, n - 1);
    }
  }

  /** A round in which client `k` alone says something: every other client hears it once. */
  lemma SayRound(slots: seq<Slot>, k: nat, m: bytes, text: bytes, receiver: nat, before: bytes)
    requires |slots| == MAX_CLIENTS && k < MAX_CLIENTS && slots[k].Taken?
    requires |m| < READBUF && Parse(m) == Say(text)
    ensures var e := Event(NoOne, map[k := m]);
      && Feasible(slots, e)
      && SlotsAfter(slots, e) == slots
      && Received(slots, e, before, receiver) ==
           before + (if receiver == k then [] else Message(slots[k].name, text))
  {
    SingleSpeaker(slots, map[k := m], k, receiver, |slots|);
  }

  /** A line without edit keys is sent as it was typed, ended by LF unless it fills the buffer. */
  lemma PlainLine(t: bytes)
    requires CR !in t && LF !in t && DEL !in t && |t| <= 128
    ensures Messages(t + [CR]) == [if |t| < 128 then t + [10] else t]
  {
    OneLine(t);
    TypedShort(t);
  }

  lemma TypedShort(t: bytes)
    requires CR !in t && LF !in t && DEL !in t && |t| <= IB_MAX
    ensures Typed(t) == t
  {
    TypedPlain(t);
  }

  lemma SaySent(t: bytes)
    requires NUL !in t && (t == [] || t[0] != SLASH)
    ensures Parse(Sent(t)) == Say(Sent(t))
  {
    ParseSay(Sent(t));
  }

  lemma ParseSay(m: bytes)
    requires m != [] && m[0] != SLASH && NUL !in m
    ensures Parse(m) == Say(m)
  {
    BeforeAbsent(m, NUL);
  }

  /**
   From the keys to the outboxes: a line that is not a command reaches every other client once, as the
   sender's name, `>` and the line with its LF, cut at 255 bytes.
   */
  lemma ChatReachesOthers(slots: seq<Slot>, k: nat, t: bytes, receiver: nat, before: bytes)
    requires |slots| == MAX_CLIENTS && k < MAX_CLIENTS && slots[k].Taken?
    requires NUL !in t && CR !in t && LF !in t && DEL !in t && |t| <= 128
    requires t == [] || t[0] != SLASH
    ensures var line := if |t| < 128 then t + [10] else t;
      var e := Event(NoOne, map[k := line]);
      var full := slots[k].name + [62] + line;
      && Messages(t + [CR]) == [line]
      && Feasible(slots, e)
      && SlotsAfter(slots, e) == slots
      && Received(slots, e, before, receiver) ==
           if receiver == k then before else before + (if |full| <= 255 then full else full[..255])
  {
    var line := Sent(t);
    PlainLine(t);
    SaySent(t);
    SayRound(slots, k, line, line, receiver, before);
  }

  /** A round in which client `k` alone is gone: its slot is free, and nobody hears anything. */
  lemma HangupRound(slots: seq<Slot>, k: nat, receiver: nat, before: bytes)
    requires |slots| == MAX_CLIENTS && k < MAX_CLIENTS && slots[k].Taken?
    ensures var e := Event(NoOne, map[k := []]);
      && Feasible(slots, e)
      && SlotsAfter(slots, e) == slots[k := Free]
      && Received(slots, e, before, receiver) == before
  {
    SingleSpeaker(slots, map[k := []], k, receiver, |slots|);
  }

  /** A round in which client `k` alone sends a command the server does not know. */
  lemma UnsupportedRound(slots: seq<Slot>, k: nat, m: bytes, receiver: nat, before: bytes)
    requires |slots| == MAX_CLIENTS && k < MAX_CLIENTS && slots[k].Taken?
    requires |m| < READBUF && Parse(m) == Unsupported
    ensures var e := Event(NoOne, map[k := m]);
      && Feasible(slots, e)
      && SlotsAfter(slots, e) == slots
      && Received(slots, e, before, receiver) ==
           before + (if receiver == k then Ascii("Unsupported command.\n") else [])
  {
    SingleSpeaker(slots, map[k := m], k, receiver, |slots|);
  }

  lemma UnsupportedSent(t: bytes)
    requires t != [] && t[0] == SLASH && !(RENAME_PREFIX <= t)
    ensures Parse(Sent(t)) == Unsupported
  {
    var m := Sent(t);
    PrefixIsPlain();
    if Parse(m).Rename? {
      RenameMeans(m, Parse(m).name);
    }
  }

  /** A line that starts with `/` but not with `/name ` changes nothing, and only its sender hears of it. */
  lemma UnsupportedReachesSender(slots: seq<Slot>, k: nat, t: bytes, receiver: nat, before: bytes)
    requires |slots| == MAX_CLIENTS && k < MAX_CLIENTS && slots[k].Taken?
    requires CR !in t && LF !in t && DEL !in t && |t| <= 128
    requires t != [] && t[0] == SLASH && !(RENAME_PREFIX <= t)
    ensures var line := if |t| < 128 then t + [10] else t;
      var e := Event(NoOne, map[k := line]);
      && Messages(t + [CR]) == [line]
      && Feasible(slots, e)
      && SlotsAfter(slots, e) == slots
      && Received(slots, e, before, receiver) ==
           before + (if receiver == k then Ascii("Unsupported command.\n") else [])
  {
    PlainLine(t);
    UnsupportedSent(t);
    UnsupportedRound(slots, k, Sent(t), receiver, before);
  }
}

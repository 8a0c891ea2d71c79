/**
 The line editor of smallchat_learn/smallchat-client.c: keys arrive in read chunks of any size and
 go into a buffer of 128 bytes; a carriage return sends the line to the server.
 */
module LineEditor {
  import opened Bytes

  const IB_MAX: nat := 128

  datatype FeedResult = IB_ERR | IB_OK | IB_GOTLINE

  // ----- what typing means

  /** The line that a sequence of keys leaves in an initially empty buffer. */
  function Typed(keys: bytes): (line: bytes)
    ensures |line| <= IB_MAX
  {
    if keys == [] || keys[|keys| - 1] == CR then []
    else Press(Typed(keys[..|keys| - 1]), keys[|keys| - 1])
  }

  function Press(line: bytes, c: byte): (r: bytes)
    ensures |line| <= IB_MAX ==> |r| <= IB_MAX
  {
    if c == LF then line
    else if c == DEL then (if line == [] then [] else line[..|line| - 1])
    else if |line| < IB_MAX then line + [c]
    else line
  }

  /** What is sent for a line: LF is added only if it still fits. */
  function Sent(line: bytes): bytes {
    if |line| < IB_MAX then line + [LF] else line
  }

  /** One message for each CR: the line as it stood before it. */
  function Messages(keys: bytes): seq<bytes> {
    if keys == [] then []
    else
      var rest, c := keys[..|keys| - 1], keys[|keys| - 1];
      if c == CR then Messages(rest) + [Sent(Typed(rest))] else Messages(rest)
  }

  // ----- laws of the editor

  /** CR sends the line, with LF if the line has fewer than 128 bytes, and empties it. */
  lemma NextReturn(keys: bytes)
    ensures Typed(keys + [13]) == []
    ensures Messages(keys + [13]) ==
            Messages(keys) + [if |Typed(keys)| < 128 then Typed(keys) + [10] else Typed(keys)]
  {
    assert (keys + [CR])[..|keys|] == keys;
  }

  /** LF does nothing, DEL takes the last byte if there is one, any other key is added if there is room. */
  lemma NextEdit(keys: bytes, c: byte)
    requires c != 13
    ensures var line := Typed(keys);
      Typed(keys + [c]) ==
      if c == 10 || (c == 127 && line == []) then line
      else if c == 127 then line[..|line| - 1]
      else if |line| < 128 then line + [c]
      else line
    ensures Messages(keys + [c]) == Messages(keys)
  {
    assert (keys + [c])[..|keys|] == keys;
  }

  /** DEL undoes a key if and only if the key was not dropped for lack of room. */
  lemma DeleteUndoesExactlyWhenRoom(a: bytes, c: byte)
    requires c != LF && c != DEL && c != CR
    ensures Typed(a + [c] + [DEL]) == Typed(a) <==> |Typed(a)| < IB_MAX
  {
    NextEdit(a, c);
    NextEdit(a + [c], DEL);
    assert |Typed(a)| < IB_MAX ==> (Typed(a) + [c])[..|Typed(a)|] == Typed(a);
  }

  function Printable(keys: bytes): bytes {
    if keys == [] then []
    else if keys[|keys| - 1] == LF then Printable(keys[..|keys| - 1])
    else Printable(keys[..|keys| - 1]) + [keys[|keys| - 1]]
  }

  /** Without DEL a line is the first 128 keys other than LF. */
  lemma {:induction false} TypedWithoutDelete(keys: bytes)
    requires DEL !in keys && CR !in keys
    ensures Typed(keys) == Take(Printable(keys), IB_MAX)
  {
    if keys != [] {
      TypedWithoutDelete(keys[..|keys| - 1]);
    }
  }

  lemma {:induction false} PrintableIdentity(keys: bytes)
    requires LF !in keys
    ensures Printable(keys) == keys
  {
    if keys != [] {
      PrintableIdentity(keys[..|keys| - 1]);
      assert keys == keys[..|keys| - 1] + [keys[|keys| - 1]];
    }
  }

  /** After a CR the editor starts afresh: what follows is independent of what came before. */
  lemma {:induction false} CarriageReturnResets(a: bytes, b: bytes)
    ensures Typed(a + [CR] + b) == Typed(b)
    ensures Messages(a + [CR] + b) ==
            Messages(a) + [if |Typed(a)| < 128 then Typed(a) + [10] else Typed(a)] + Messages(b)
  {
    var s := a + [CR] + b;
    if b == [] {
      assert s == a + [CR] && s[..|s| - 1] == a;
    } else {
      var b' := b[..|b| - 1];
      assert s[..|s| - 1] == a + [CR] + b' && s[|s| - 1] == b[|b| - 1];
      CarriageReturnResets(a, b');
      if b[|b| - 1] == CR {
        var m := Sent(Typed(b'));
        assert Typed(a + [CR] + b') == Typed(b');
        assert Messages(s) == Messages(a + [CR] + b') + [m];
        assert Messages(b) == Messages(b') + [m];
      }
    }
  }

  lemma {:induction false} NoReturnNoMessage(keys: bytes)
    requires CR !in keys
    ensures Messages(keys) == []
  {
    if keys != [] {
      NoReturnNoMessage(keys[..|keys| - 1]);
    }
  }

  // ----- the buffer as the source keeps it

  class InputBuffer {
    const buf: array<byte>
    var len: nat

    ghost predicate Valid()
      reads this
    {
      buf.Length == IB_MAX && len <= IB_MAX
    }

    function Line(): (r: bytes)
      requires Valid()
      reads this, buf
    {
      buf[..len]
    }

    constructor ()
      ensures Valid() && Line() == [] && fresh(buf)
    {
      buf := new byte[IB_MAX](_ => 0);
      len := 0;
    }

    /** `inputBufferAppend` (lines 67-73). */
    method Append(c: byte) returns (res: FeedResult)
      requires Valid()
      modifies this`len, buf
      ensures Valid()
      ensures if |old(Line())| == IB_MAX then res == IB_ERR && Line() == old(Line())
              else res == IB_OK && Line() == old(Line()) + [c]
    {
      if len >= IB_MAX {
        return IB_ERR;
      }
      buf[len] := c;
      len := len + 1;
      return IB_OK;
    }

    /** `inputBufferFeedChar` (lines 78-97), without the echo on the terminal. */
    method FeedChar(c: byte) returns (res: FeedResult)
      requires Valid()
      modifies this`len, buf
      ensures Valid()
      ensures if c == CR then res == IB_GOTLINE && Line() == old(Line())
              else res == IB_OK && Line() == Press(old(Line()), c)
    {
      if c == LF {
      } else if c == CR {
        return IB_GOTLINE;
      } else if c == DEL {
        if len > 0 {
          len := len - 1;
        }
      } else {
        var r := Append(c);
      }
      return IB_OK;
    }

    /** `inputBufferClear` (lines 109-112). */
    method Clear()
      requires Valid()
      modifies this`len
      ensures Valid() && Line() == []
    {
      len := 0;
    }

    /** One key of a read chunk (lines 155-166); `keys` is everything typed before it. */
    method FeedKey(ghost keys: bytes, c: byte) returns (sent: seq<bytes>)
      requires Valid() && Line() == Typed(keys)
      modifies this`len, buf
      ensures Valid() && Line() == Typed(keys + [c])
      ensures Messages(keys + [c]) == Messages(keys) + sent
      ensures sent == if c != 13 then [] else if |old(Line())| < 128 then [old(Line()) + [10]] else [old(Line())]
    {
      sent := [];
      var res := FeedChar(c);
      match res {
        case IB_GOTLINE =>
          NextReturn(keys);
          var r := Append(LF);
          sent := [Line()];
          Clear();
        case IB_OK =>
          NextEdit(keys, c);
        case IB_ERR =>
          assert false;
      }
    }

    /**
     The loop over one read chunk (lines 154-166).  `typed` is everything typed before the chunk; the
     messages sent for the chunk are the further messages of everything typed so far.
     */
    method FeedChunk(ghost typed: bytes, chunk: bytes) returns (sent: seq<bytes>)
      requires Valid() && Line() == Typed(typed)
      modifies this`len, buf
      ensures Valid() && Line() == Typed(typed + chunk)
      ensures Messages(typed + chunk) == Messages(typed) + sent
    {
      sent := [];
      ghost var keys, before := typed, Messages(typed);
      for j := 0 to |chunk|
        invariant Valid() && Line() == Typed(keys)
        invariant keys == typed + chunk[..j]
        invariant Messages(keys) == before + sent
      {
        var more := FeedKey(keys, chunk[j]);
        sent := sent + more;
        keys := keys + [chunk[j]];
      }
      assert keys == typed + chunk;
    }
  }

  function Concat(chunks: seq<bytes>): bytes {
    if chunks == [] then [] else Concat(chunks[..|chunks| - 1]) + chunks[|chunks| - 1]
  }

  /**
   A whole session (the main loop, lines 131-170, from an empty buffer).  However the keys are split
   into chunks, the messages and the line left over depend only on the keys.
   */
  method Session(chunks: seq<bytes>) returns (sent: seq<bytes>, left: bytes)
    ensures sent == Messages(Concat(chunks))
    ensures left == Typed(Concat(chunks))
    ensures |left| <= IB_MAX
  {
    var ib := new InputBuffer();
    sent := [];
    for i := 0 to |chunks|
      invariant ib.Valid() && fresh(ib) && fresh(ib.buf)
      invariant sent == Messages(Concat(chunks[..i]))
      invariant ib.Line() == Typed(Concat(chunks[..i]))
    {
      assert chunks[..i + 1][..i] == chunks[..i];
      var more := ib.FeedChunk(Concat(chunks[..i]), chunks[i]);
      sent := sent + more;
    }
    assert chunks[..|chunks|] == chunks;
    left := ib.Line();
  }
}

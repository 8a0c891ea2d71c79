/**
 What the chat server makes of one read: the buffer handling inside `main` of
 smallchat_learn/smallchat-server.c (lines 123-162).
 */
module ChatCommands {
  import opened Bytes

  /** A read buffer has 256 bytes, one of them kept for the terminator. */
  const READBUF: nat := 256

  const NAME_COMMAND: bytes := Ascii("/name")

  datatype Input =
    | Hangup
    | Rename(name: bytes)
    | Unsupported
    | Say(text: bytes)

  /** The C string that starts at `start`. */
  function CString(buf: bytes, start: nat): (r: bytes)
    requires start <= |buf|
  {
    Before(buf[start..], NUL)
  }

  /** A command line ends at the first NUL, and within that at CR and at LF. */
  function CommandLine(data: bytes): (r: bytes)
    ensures NUL !in r && CR !in r && LF !in r
    ensures r <= data
  {
    Before(Before(Before(data, NUL), CR), LF)
  }

  function ParseLine(line: bytes): Input {
    var sp := Find(line, SPACE);
    if sp < |line| && line[..sp] == NAME_COMMAND then Rename(line[sp + 1..]) else Unsupported
  }

  /** What a read of `data` means; nothing read means the peer is gone. */
  function Parse(data: bytes): Input {
    if data == [] then Hangup
    else if data[0] == SLASH then ParseLine(CommandLine(data))
    else Say(Before(data, NUL))
  }

  // ----- what Parse recognises

  /** A rename is exactly a command line of the form `/name <anything>`, empty names included. */
  lemma RenameExactly(data: bytes, n: bytes)
    ensures Parse(data) == Rename(n) <==> CommandLine(data) == NAME_COMMAND + [SPACE] + n
  {
    var line := CommandLine(data);
    if line == NAME_COMMAND + [SPACE] + n {
      assert line[0] == SLASH && data[0] == line[0];
      assert line[..5] == NAME_COMMAND && line[5] == SPACE && line[6..] == n;
      forall i | 0 <= i < 5 ensures line[i] != SPACE {
        assert line[i] == NAME_COMMAND[i];
      }
      FindIs(line, SPACE, 5);
    }
    if Parse(data) == Rename(n) {
      var sp := Find(line, SPACE);
      assert line == line[..sp] + [line[sp]] + line[sp + 1..];
    }
  }

  /** No name a client can choose contains CR, LF or NUL. */
  lemma RenameIsClean(data: bytes, n: bytes)
    requires Parse(data) == Rename(n)
    ensures NUL !in n && CR !in n && LF !in n && |n| + 6 <= |data|
  {
    RenameExactly(data, n);
    var line := CommandLine(data);
    assert forall b :: b in n ==> b in line;
  }

  /** `/name n` followed by a line end, or by nothing, renames to exactly `n`. */
  lemma RenameRoundTrip(n: bytes, tail: bytes)
    requires NUL !in n && CR !in n && LF !in n
    requires tail == [] || tail[0] == LF || tail[0] == CR || tail[0] == NUL
    ensures Parse(NAME_COMMAND + [SPACE] + n + tail) == Rename(n)
  {
    var line := NAME_COMMAND + [SPACE] + n;
    var data := line + tail;
    forall b | b in line ensures b != NUL && b != CR && b != LF {
      if b !in n {
        assert b in NAME_COMMAND || b == SPACE;
      }
    }
    CommandLineStops(line, tail);
    RenameExactly(data, n);
  }

  lemma CommandLineStops(line: bytes, tail: bytes)
    requires NUL !in line && CR !in line && LF !in line
    requires tail == [] || tail[0] == LF || tail[0] == CR || tail[0] == NUL
    ensures CommandLine(line + tail) == line
  {
    var d0 := Before(line + tail, NUL);
    StopsNoEarlier(line, tail, NUL);
    var d1 := Before(d0, CR);
    StopsNoEarlier(line, d0[|line|..], CR);
    assert d0 == line + d0[|line|..];
    StopsNoEarlier(line, d1[|line|..], LF);
    assert d1 == line + d1[|line|..];
  }

  /** Cutting `line + tail` at a byte that `line` lacks cuts only the tail. */
  lemma StopsNoEarlier(line: bytes, tail: bytes, c: byte)
    requires c !in line
    ensures Before(line + tail, c) == line + Before(tail, c)
  {
    var s := line + tail;
    var i := |line| + Find(tail, c);
    assert s[..i] == line + tail[..Find(tail, c)];
    FindIs(s, c, i);
  }

  /** Nothing read is a hangup; a chat text is everything up to the first NUL of a read that is no command. */
  lemma SayExactly(data: bytes, t: bytes)
    ensures Parse(data) == Hangup <==> data == []
    ensures Parse(data) == Say(t) <==>
              data != [] && data[0] != 47 && t <= data && 0 !in t && (|t| < |data| ==> data[|t|] == 0)
  {
    if t <= data && 0 !in t && (|t| < |data| ==> data[|t|] == 0) {
      FindIs(data, NUL, |t|);
    }
  }

  /**
   A read is a rename to `n` exactly if it consists of `/name `, then `n` without NUL, CR or LF, and then
   nothing or one of these three followed by anything.
   */
  lemma RenameMeans(data: bytes, n: bytes)
    ensures Parse(data) == Rename(n) <==>
              && [47, 110, 97, 109, 101, 32] + n <= data && 0 !in n && 13 !in n && 10 !in n
              && (|n| + 6 < |data| ==> data[|n| + 6] == 0 || data[|n| + 6] == 13 || data[|n| + 6] == 10)
  {
    var line := [47, 110, 97, 109, 101, 32] + n;
    assert line == NAME_COMMAND + [SPACE] + n;
    if line <= data && 0 !in n && 13 !in n && 10 !in n && (|line| < |data| ==> data[|line|] == 0 || data[|line|] == 13 || data[|line|] == 10) {
      assert data == line + data[|line|..];
      RenameRoundTrip(n, data[|line|..]);
    }
    if Parse(data) == Rename(n) {
      RenameIsClean(data, n);
      RenameExactly(data, n);
      CommandLineIsMaximal(data);
    }
  }

  /** The command line stops only at a byte that ends it. */
  lemma CommandLineIsMaximal(data: bytes)
    ensures var line := CommandLine(data);
      |line| < |data| ==> data[|line|] == NUL || data[|line|] == CR || data[|line|] == LF
  {
  }

  // ----- the parser as the source writes it, cutting the buffer up in place

  /** `strchr`: the index of `c` in the C string at `start`, or -1. */
  method StrChr(buf: array<byte>, start: nat, c: byte) returns (p: int)
    requires start < buf.Length && NUL in buf[start..] && c != NUL
    ensures var s := CString(buf[..], start);
      p == if c in s then start + Find(s, c) else -1
  {
    ghost var s := CString(buf[..], start);
    Terminated(buf[..], start);
    p := start;
    while buf[p] != NUL
      invariant start <= p <= start + |s|
      invariant c !in s[..p - start]
      decreases start + |s| - p
    {
      assert s[p - start] == buf[p];
      if buf[p] == c {
        FindIs(s, c, p - start);
        return;
      }
      assert s[..p + 1 - start] == s[..p - start] + [s[p - start]];
      p := p + 1;
    }
    assert s[..|s|] == s;
    p := -1;
  }

  lemma Terminated(buf: bytes, start: nat)
    requires start < |buf| && NUL in buf[start..]
    ensures var s := CString(buf, start); start + |s| < |buf| && buf[start + |s|] == NUL
    ensures forall i :: 0 <= i < |CString(buf, start)| ==> CString(buf, start)[i] == buf[start + i] != NUL
  {
    var t := buf[start..];
    FindInside(t, NUL);
    var s := CString(buf, start);
    forall i | 0 <= i < |s| ensures s[i] == buf[start + i] != NUL {
      assert s[i] in s;
    }
  }

  /** Writing a terminator over the byte at offset `i` of a C string cuts the string there. */
  lemma CutCString(buf: bytes, cut: bytes, start: nat, i: nat)
    requires start <= |buf| && i < |CString(buf, start)| && cut == buf[start + i := NUL]
    ensures CString(cut, start) == CString(buf, start)[..i]
    ensures CString(cut, start + i + 1) == CString(buf, start)[i + 1..]
  {
    var s, t := CString(buf, start), buf[start..];
    assert cut[start..][..i] == s[..i];
    FindIs(cut[start..], NUL, i);
    var u := cut[start + i + 1..];
    assert u == t[i + 1..] && u[..|s| - i - 1] == s[i + 1..];
    FindIs(u, NUL, |s| - i - 1);
  }

  method CutAt(buf: array<byte>, c: byte)
    requires buf.Length == READBUF && NUL in buf[..] && c != NUL
    modifies buf
    ensures NUL in buf[..] && CString(buf[..], 0) == Before(old(CString(buf[..], 0)), c)
  {
    assert buf[0..] == buf[..];
    ghost var was := buf[..];
    ghost var s := CString(was, 0);
    var p := StrChr(buf, 0, c);
    if p != -1 {
      FindInside(s, c);
      buf[p] := NUL;
      CutCString(was, buf[..], 0, p);
      assert buf[..][p] == NUL;
    } else {
      BeforeAbsent(s, c);
    }
  }

  /** Lines 129-162 without the effects: `readbuf` holds `nread` bytes and is cut up in place. */
  method ParseBuffer(readbuf: array<byte>, nread: nat) returns (input: Input)
    requires readbuf.Length == READBUF && 0 < nread < READBUF
    modifies readbuf
    ensures input == Parse(old(readbuf[..nread]))
  {
    ghost var data := readbuf[..nread];
    readbuf[nread] := NUL;
    assert readbuf[..][nread] == NUL;
    BufferHolds(readbuf[..], data);
    if readbuf[0] == SLASH {
      CutAt(readbuf, CR);
      CutAt(readbuf, LF);
      ghost var buf, line := readbuf[..], CString(readbuf[..], 0);
      assert line == CommandLine(data);
      assert readbuf[0..] == buf;
      var arg := StrChr(readbuf, 0, SPACE);
      if arg != -1 {
        FindInside(line, SPACE);
        readbuf[arg] := NUL;
        CutCString(buf, readbuf[..], 0, arg);
        arg := arg + 1;
        if CString(readbuf[..], 0) == NAME_COMMAND {
          return Rename(CString(readbuf[..], arg));
        }
      } else {
        BeforeAbsent(line, SPACE);
      }
      return Unsupported;
    } else {
      return Say(CString(readbuf[..], 0));
    }
  }

  lemma BufferHolds(buf: bytes, data: bytes)
    requires |data| < |buf| && buf[..|data|] == data && buf[|data|] == NUL
    ensures CString(buf, 0) == Before(data, NUL)
  {
    assert buf[0..] == buf;
    var i := Find(data, NUL);
    assert buf[..i] == data[..i];
    FindIs(buf, NUL, i);
  }
}

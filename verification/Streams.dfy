/** The socket, the read-ahead stream over it, and the two-stage line buffer. */
module Streams {
  import opened Bytes

  /** How a connection ends, once the peer's bytes are used up. */
  datatype End = Closed | Failed | TimedOut

  /** The peer. `incoming` is what `recv` will still deliver, in pieces of any size, before `end`. */
  class Socket {
    var incoming: string
    const end: End

    constructor (incoming: string, end: End)
      ensures this.incoming == incoming && this.end == end
    {
      this.incoming, this.end := incoming, end;
    }

    /** `select`: false only when nothing will come. */
    predicate Readable()
      reads this
    {
      incoming != "" || end != TimedOut
    }

    /** `recv` of at most `size` bytes into `buf`. */
    method Recv(buf: array<char>, size: nat) returns (n: int)
      requires 0 < size <= buf.Length
      modifies this`incoming, buf
      ensures n <= size
      ensures old(incoming) != "" ==> n > 0 && old(incoming) == buf[..n] + incoming
      ensures old(incoming) == "" ==> incoming == "" && n == EndCode()
    {
      if incoming == "" { return EndCode(); }
      var k :| 1 <= k <= (if size < |incoming| then size else |incoming|);
      forall i | 0 <= i < k { buf[i] := incoming[i]; }
      assert buf[..k] == incoming[..k];
      incoming := incoming[k..];
      n := k;
    }

    function EndCode(): (n: int)
      ensures n <= 0 && (n == 0 <==> end == Closed)
    {
      if end == Closed then 0 else -1
    }
  }

  const READ_BUFF_SIZE: nat := 4096

  class SocketStream {
    const sock: Socket
    const readBuff: array<char>
    var off: nat
    var contentSize: nat

    ghost predicate Valid()
      reads this
    {
      readBuff.Length == READ_BUFF_SIZE && off <= contentSize <= READ_BUFF_SIZE
    }

    ghost function Repr(): set<object> { {this, readBuff, sock} }

    /** Everything not yet handed to the caller: the read-ahead bytes, then the peer's. */
    ghost function Pending(): string
      reads this, readBuff, sock
      requires Valid()
    {
      readBuff[off..contentSize] + sock.incoming
    }

    constructor (sock: Socket)
      ensures Valid() && this.sock == sock && fresh(readBuff)
      ensures Pending() == sock.incoming
    {
      this.sock := sock;
      readBuff := new char[READ_BUFF_SIZE](_ => '\0');
      off, contentSize := 0, 0;
    }

    /** The read-ahead part of `read`. */
    method TakeBuffered(size: nat) returns (n: int, data: string)
      requires Valid() && off < contentSize
      modifies this`off
      ensures Valid() && n == |data| <= size && (size > 0 ==> n > 0)
      ensures old(readBuff[off..contentSize]) == data + readBuff[off..contentSize]
    {
      var remaining := contentSize - off;
      n := if size <= remaining then size else remaining;
      data := readBuff[off..off + n];
      off := off + n;
    }

    /** A short request fills the read-ahead buffer. */
    method RefillAndTake(size: nat) returns (n: int, data: string)
      requires Valid() && off == contentSize == 0 && size < READ_BUFF_SIZE
      modifies this`off, this`contentSize, readBuff, sock`incoming
      ensures Valid() && n <= size && |data| == (if n > 0 then n else 0)
      ensures old(sock.incoming) == data + readBuff[off..contentSize] + sock.incoming
      ensures size > 0 && old(sock.incoming) != "" ==> n > 0
      ensures size > 0 && old(sock.incoming) == "" ==> n == sock.EndCode()
    {
      var k := sock.Recv(readBuff, READ_BUFF_SIZE);
      if k <= 0 { return k, ""; }
      n := if k <= size then k else size;
      data := readBuff[..n];
      assert readBuff[..k] == data + readBuff[n..k];
      if k > size { off, contentSize := size, k; } else { assert readBuff[n..k] == "" == readBuff[0..0]; }
    }

    /** A long request goes straight to the caller's memory. */
    method ReceiveInto(size: nat) returns (n: int, data: string)
      requires 0 < size
      modifies sock`incoming
      ensures n <= size && |data| == (if n > 0 then n else 0)
      ensures old(sock.incoming) == data + sock.incoming
      ensures old(sock.incoming) != "" ==> n > 0
      ensures old(sock.incoming) == "" ==> n == sock.EndCode()
    {
      var ptr := new char[size];
      n := sock.Recv(ptr, size);
      data := if n > 0 then ptr[..n] else "";
    }

    /** The part of `read` that goes to the socket. */
    method Refill(size: nat) returns (n: int, data: string)
      requires Valid() && off == contentSize
      modifies this`off, this`contentSize, readBuff, sock`incoming
      ensures Valid() && n <= size && |data| == (if n > 0 then n else 0)
      ensures old(sock.incoming) == data + readBuff[off..contentSize] + sock.incoming
      ensures size > 0 && old(sock.incoming) != "" ==> n > 0
      ensures size > 0 && old(sock.incoming) == "" ==> n == sock.EndCode()
    {
      if !sock.Readable() { return -1, ""; }
      off, contentSize := 0, 0;
      if size < READ_BUFF_SIZE {
        n, data := RefillAndTake(size);
      } else {
        n, data := ReceiveInto(size);
        assert data + readBuff[off..contentSize] == data;
      }
    }

    /** `read`: `data` is what it stores at the caller's pointer. Whatever the sizes, nothing is lost or reordered. */
    method Read(size0: nat) returns (n: int, data: string)
      requires Valid()
      modifies this`off, this`contentSize, readBuff, sock`incoming
      ensures Valid()
      ensures old(Pending()) == data + Pending()
      ensures |data| == (if n > 0 then n else 0) && n <= size0
      ensures size0 > 0 && old(Pending()) != "" ==> n > 0
      ensures size0 > 0 && old(Pending()) == "" ==> n == sock.EndCode()
    {
      var size := if size0 < SSIZE_MAX then size0 else SSIZE_MAX;
      if off < contentSize {
        n, data := TakeBuffered(size);
        Assoc(data, readBuff[off..contentSize], sock.incoming);
      } else {
        n, data := Refill(size);
        Assoc(data, readBuff[off..contentSize], sock.incoming);
      }
    }

    /** `read(&byte, 1)` */
    method ReadByte() returns (n: int, c: char)
      requires Valid()
      modifies this`off, this`contentSize, readBuff, sock`incoming
      ensures Valid()
      ensures old(Pending()) != "" ==> n == 1 && c == old(Pending())[0] && Pending() == old(Pending())[1..]
      ensures old(Pending()) == "" ==> n == sock.EndCode() && Pending() == ""
    {
      var data;
      n, data := Read(1);
      c := if n > 0 then data[0] else '\0';
    }
  }

  // ---------------------------------------------------------------------------
  // Lines
  // ---------------------------------------------------------------------------

  /** Length of the shortest prefix of `s` ending in CRLF; all of `s` when there is none. */
  function LineLength(s: string): (n: nat)
    ensures n <= |s|
    ensures s != "" ==> n > 0
  {
    var p := Find(s, CRLF);
    if p < |s| then p + 2 else |s|
  }

  function Line(s: string): string { s[..LineLength(s)] }

  function AfterLine(s: string): string { s[LineLength(s)..] }

  predicate EndsWithCrlf(s: string) { |s| >= 2 && s[|s| - 2..] == CRLF }

  lemma LineLengthIs(s: string, n: nat)
    requires n <= |s| && forall p :: 0 <= p && p + 2 < n ==> !OccursAt(s, CRLF, p)
    requires if 2 <= n && OccursAt(s, CRLF, n - 2) then true else n == |s|
    ensures LineLength(s) == n
    ensures EndsWithCrlf(s[..n]) <==> 2 <= n && OccursAt(s, CRLF, n - 2)
  {
    if 2 <= n && OccursAt(s, CRLF, n - 2) {
      FindIs(s, CRLF, n - 2);
      assert s[..n][n - 2..] == s[n - 2..n];
    } else {
      FindIs(s, CRLF, |s|);
      if n >= 2 { assert s[..n][n - 2..] == s[n - 2..n]; }
    }
  }

  /** No CRLF ends within the first `n` characters. */
  predicate Unbroken(s: string, n: nat) {
    forall p :: 0 <= p && p + 2 <= n ==> !OccursAt(s, CRLF, p)
  }

  lemma LineGoesOn(s: string, n: nat)
    requires n < |s| && Unbroken(s, n)
    ensures n > 0 && s[n - 1] == '\r' && s[n] == '\n' ==>
              Line(s) == s[..n + 1] && AfterLine(s) == s[n + 1..] && EndsWithCrlf(Line(s))
    ensures n == 0 || s[n - 1] != '\r' || s[n] != '\n' ==> Unbroken(s, n + 1)
  {
    if n > 0 { assert s[n - 1..n + 1] == [s[n - 1], s[n]]; }
    if n > 0 && s[n - 1] == '\r' && s[n] == '\n' { LineLengthIs(s, n + 1); }
  }

  lemma LineCutShort(s: string)
    requires Unbroken(s, |s|)
    ensures Line(s) == s && AfterLine(s) == "" && !EndsWithCrlf(s)
  {
    LineLengthIs(s, |s|);
  }

  class StreamLineReader {
    const strm: SocketStream
    const fixedBuffer: array<char>
    var used: nat
    var glowable: string

    ghost function Repr(): set<object> { {this, fixedBuffer} + strm.Repr() }

    ghost predicate Valid()
      reads this, fixedBuffer, strm
    {
      strm.Valid() && fixedBuffer != strm.readBuff && 2 <= fixedBuffer.Length && used < fixedBuffer.Length
      && (glowable != "" ==> used == fixedBuffer.Length - 1)
      && (glowable == "" && used > 0 ==> fixedBuffer[used] == '\0')
    }

    /** The bytes `ptr()` and `size()` describe. */
    ghost function Text(): string
      reads this, fixedBuffer
      requires used <= fixedBuffer.Length
    {
      if glowable == "" then fixedBuffer[..used] else glowable
    }

    constructor (strm: SocketStream, fixedBuffer: array<char>)
      requires strm.Valid() && fixedBuffer != strm.readBuff && 2 <= fixedBuffer.Length
      ensures Valid() && this.strm == strm && this.fixedBuffer == fixedBuffer && Text() == ""
    {
      this.strm, this.fixedBuffer := strm, fixedBuffer;
      used, glowable := 0, "";
    }

    /** `std::string(ptr(), size())` */
    method Contents() returns (s: string)
      requires Valid()
      ensures s == Text()
    {
      s := if glowable == "" then fixedBuffer[..used] else glowable;
    }

    method EndWithCrlf() returns (r: bool)
      requires Valid()
      ensures r <==> EndsWithCrlf(Text())
    {
      var s := Contents();
      r := |s| >= 2 && s[|s| - 2] == '\r' && s[|s| - 1] == '\n';
      if |s| >= 2 { assert s[|s| - 2..] == [s[|s| - 2], s[|s| - 1]]; }
    }

    method Append(c: char)
      requires Valid()
      modifies this, fixedBuffer
      ensures Valid() && Text() == old(Text()) + [c]
    {
      if used < fixedBuffer.Length - 1 {
        fixedBuffer[used] := c;
        used := used + 1;
        fixedBuffer[used] := '\0';
      } else {
        if glowable == "" {
          assert fixedBuffer[used] == '\0';
          glowable := fixedBuffer[..used];
        }
        glowable := glowable + [c];
      }
    }

    /** Reads one line, whatever the size of the fixed buffer and however the bytes arrive. */
    method Getline() returns (ok: bool)
      requires Valid()
      modifies Repr()
      ensures Valid()
      ensures var p := old(strm.Pending());
              strm.Pending() == AfterLine(p) && Text() == Line(p)
              && (ok <==> EndsWithCrlf(Line(p)) || (p != "" && strm.sock.end == Closed))
    {
      hide Unbroken, Line, AfterLine, EndsWithCrlf, OccursAt;
      ghost var p := strm.Pending();
      used, glowable := 0, "";
      var prev := '\0';
      var i := 0;
      NothingRead(p);
      while true
        invariant Valid()
        invariant i <= |p| && Text() == p[..i] && strm.Pending() == p[i..]
        invariant prev == if i > 0 then p[i - 1] else '\0'
        invariant Unbroken(p, i)
        decreases |p| - i
      {
        var n, c := strm.ReadByte();
        if n <= 0 {
          LineCutShort(p);
          if n < 0 { return false; }
          return i != 0;
        }
        Append(c);
        LineGoesOn(p, i);
        Advance(p, i);
        i := i + 1;
        if prev == '\r' && c == '\n' { return true; }
        prev := c;
      }
    }

    lemma NothingRead(p: string)
      ensures Unbroken(p, 0)
    {
    }
  }
}

/** Reading from a connection: the buffered `SocketStream` and the line reader on top of it. */
module Stream {
  import opened Sequences
  import opened Strings

  /** The bytes a peer has sent and we have not received. Receiving yields any non-empty
      prefix that fits; at the end it reports the end of the stream or an error. */
  class Socket {
    var input: string
    const failsAtEnd: bool

    constructor (input: string, failsAtEnd: bool)
      ensures this.input == input && this.failsAtEnd == failsAtEnd
    {
      this.input := input;
      this.failsAtEnd := failsAtEnd;
    }

    /** `read_socket` */
    method Recv(max: nat) returns (n: int, data: string)
      requires max > 0
      modifies this
      ensures old(input) == [] ==> n == (if failsAtEnd then -1 else 0) && data == [] && input == []
      ensures old(input) != [] ==> 0 < n == |data| <= max && old(input) == data + input
    {
      if input == [] { return if failsAtEnd then -1 else 0, []; }
      n :| 1 <= n <= max && n <= |input|;
      data := input[..n];
      input := input[n..];
    }
  }

  const READ_BUFF_SIZE: nat := 4096

  class SocketStream {
    const sock: Socket
    const readBuff: array<char>
    var readBuffOff: nat
    var readBuffContentSize: nat

    ghost predicate Valid()
      reads this
    {
      readBuffOff <= readBuffContentSize <= readBuff.Length == READ_BUFF_SIZE
    }

    /** All bytes that are still to be handed out, buffered or not. */
    ghost function Unread(): string
      requires Valid()
      reads this, readBuff, sock
    {
      readBuff[readBuffOff..readBuffContentSize] + sock.input
    }

    constructor (sock: Socket)
      ensures Valid() && this.sock == sock && Unread() == sock.input && fresh(readBuff)
    {
      this.sock := sock;
      readBuff := new char[READ_BUFF_SIZE](_ => '\0');
      readBuffOff, readBuffContentSize := 0, 0;
    }

    /** `read`: the buffer first; then the socket, through the buffer when little is asked for. */
    method Read(size: nat) returns (n: int, data: string)
      requires Valid()
      modifies this, readBuff, sock
      ensures Valid()
      ensures n > 0 ==> n == |data| <= size && old(Unread()) == data + Unread()
      ensures n <= 0 ==> data == [] && old(Unread()) == Unread()
      ensures n <= 0 && size > 0 ==> Unread() == [] && n == if sock.failsAtEnd then -1 else 0
    {
      ghost var all := Unread();
      if readBuffOff < readBuffContentSize {
        var remaining := readBuffContentSize - readBuffOff;
        n := if size <= remaining then size else remaining;
        data := readBuff[readBuffOff..readBuffOff + n];
        assert readBuff[readBuffOff..readBuffContentSize] == data + readBuff[readBuffOff + n..readBuffContentSize];
        Regroup(data, readBuff[readBuffOff + n..readBuffContentSize], sock.input);
        readBuffOff := readBuffOff + n;
        return;
      }
      assert all == sock.input;
      readBuffOff := 0;
      readBuffContentSize := 0;
      if size < READ_BUFF_SIZE {
        var got: string;
        n, got := sock.Recv(READ_BUFF_SIZE);
        if n <= 0 { return n, []; }
        forall i | 0 <= i < n {
          readBuff[i] := got[i];
        }
        assert readBuff[..n] == got;
        if n <= size {
          data := got;
        } else {
          data := got[..size];
          assert got == data + readBuff[size..n];
          Regroup(data, readBuff[size..n], sock.input);
          readBuffOff := size;
          readBuffContentSize := n;
          n := size;
        }
      } else {
        n, data := sock.Recv(size);
      }
    }
  }

  // ----- lines

  /** How many bytes the next line takes: up to and with the next newline, or all. */
  function LineLength(s: string): (n: nat)
    ensures n <= |s| && (s != [] ==> n > 0)
  {
    var i := FirstIndex(s, '\n');
    if i < |s| then i + 1 else |s|
  }

  /** Whether `getline` succeeds: there is a newline, or there are bytes and then a clean end. */
  predicate HasLine(s: string, failsAtEnd: bool)
  {
    s != [] && ('\n' in s || !failsAtEnd)
  }

  /** A C string ends at the first zero byte. */
  function CString(s: string): string
  {
    s[..FirstIndex(s, '\0')]
  }

  /** `stream_line_reader`: a fixed buffer that spills into a growable one. */
  class StreamLineReader {
    const strm: SocketStream
    const fixedBuffer: array<char>
    var fixedUsed: nat
    var growable: string

    ghost predicate Valid()
      reads this, strm, fixedBuffer
    {
      && strm.Valid()
      && fixedBuffer != strm.readBuff
      && fixedUsed < fixedBuffer.Length && fixedBuffer.Length >= 2
      && (fixedUsed > 0 ==> fixedBuffer[fixedUsed] == '\0')
      && (growable != [] ==> fixedUsed == fixedBuffer.Length - 1)
    }

    /** The bytes between `ptr()` and `ptr() + size()`. */
    function Line(): string
      requires Valid()
      reads this, strm, fixedBuffer
    {
      if growable == [] then fixedBuffer[..fixedUsed] else growable
    }

    constructor (strm: SocketStream, bufsiz: nat)
      requires strm.Valid() && bufsiz >= 2
      ensures Valid() && this.strm == strm && fresh(fixedBuffer)
    {
      this.strm := strm;
      fixedBuffer := new char[bufsiz](_ => '\0');
      fixedUsed := 0;
      growable := [];
    }

    method Append(c: char)
      requires Valid()
      modifies this, fixedBuffer
      ensures Valid() && Line() == old(Line()) + [c]
    {
      if fixedUsed < fixedBuffer.Length - 1 {
        fixedBuffer[fixedUsed] := c;
        fixedUsed := fixedUsed + 1;
        fixedBuffer[fixedUsed] := '\0';
        assert fixedBuffer[..fixedUsed] == old(fixedBuffer[..fixedUsed]) + [c];
      } else {
        if growable == [] {
          assert fixedBuffer[fixedUsed] == '\0';
          growable := fixedBuffer[..fixedUsed];
        }
        growable := growable + [c];
      }
    }

    /** `getline`: exactly the bytes up to the next newline, wherever the buffers meet. */
    method Getline() returns (ok: bool)
      requires Valid()
      modifies this, fixedBuffer, strm, strm.readBuff, strm.sock
      ensures Valid()
      ensures ok == HasLine(old(strm.Unread()), strm.sock.failsAtEnd)
      ensures var all := old(strm.Unread()); var n := LineLength(all);
              strm.Unread() == all[n..] && (ok ==> Line() == all[..n])
    {
      ghost var all := strm.Unread();
      fixedUsed := 0;
      growable := [];
      var i := 0;
      while true
        invariant Valid() && i == |Line()| <= |all|
        invariant all == Line() + strm.Unread()
        invariant '\n' !in Line()
        decreases |all| - i
      {
        ghost var line, unread := Line(), strm.Unread();
        var n, data := strm.Read(1);
        if n <= 0 {
          assert line == all;
          NoNewline(all);
          return n == 0 && i > 0;
        }
        Append(data[0]);
        Regroup(line, data, strm.Unread());
        assert data == [data[0]];
        if data[0] == '\n' {
          NewlineAt(line, strm.Unread());
          return true;
        }
        i := i + 1;
      }
      assert false;
    }
  }

  lemma {:induction false} NoNewline(s: string)
    requires '\n' !in s
    ensures LineLength(s) == |s| && s[LineLength(s)..] == [] && s[..LineLength(s)] == s
  {
  }

  lemma {:induction false} NewlineAt(line: string, rest: string)
    requires '\n' !in line
    ensures var s := line + ['\n'] + rest;
            LineLength(s) == |line| + 1 && s[LineLength(s)..] == rest && s[..LineLength(s)] == line + ['\n']
  {
    FirstIndexIs(line, '\n', rest);
  }
}

/**
 * One client connection, carried out step by step as the server does it:
 * a read cursor over the client's bytes, the bytes written back, and the
 * file tree the sessions change. Every method is proved to end in the
 * state the matching function of the Protocol module describes.
 */
module Server {
  import opened Wrappers
  import opened Bytes
  import opened Paths
  import opened Header
  import opened Command
  import opened FileSystem
  import opened Protocol

  datatype ReadStatus = ReadOk | ReadEof | ReadError

  /**
   * os.File.Read of an open node at `offset` into the copy buffer: a file
   * yields up to 32 KiB of its contents and then end of file; reading a
   * directory fails.
   */
  method ReadNode(node: Node, offset: nat, buffer: array<byte>) returns (n: nat, status: ReadStatus)
    requires buffer.Length == BUFFER_SIZE
    modifies buffer
    ensures node.Directory? ==> status == ReadError && n == 0
    ensures node.File? && offset >= |node.data| ==> status == ReadEof && n == 0
    ensures node.File? && offset < |node.data| ==>
              && status == ReadOk
              && n == Min(BUFFER_SIZE, |node.data| - offset)
              && buffer[..n] == node.data[offset..offset + n]
  {
    if node.Directory? {
      return 0, ReadError;
    }
    if offset >= |node.data| {
      return 0, ReadEof;
    }
    n := Min(BUFFER_SIZE, |node.data| - offset);
    var i := 0;
    while i < n
      invariant 0 <= i <= n
      invariant buffer[..i] == node.data[offset..offset + i]
    {
      buffer[i] := node.data[offset + i];
      i := i + 1;
    }
    status := ReadOk;
  }

  class Connection {
    /** The root directory every path must stay under (clean and absolute). */
    const root: Path
    /** Everything the client sends. */
    const input: Stream
    /** How much of the input the server has consumed. */
    var pos: nat
    /** Everything the server has written to the client. */
    var output: seq<byte>
    var fs: FileTree

    ghost predicate Valid()
      reads this
    {
      IsRooted(root) && pos <= |input.bytes|
    }

    ghost function State(): Endpoint
      reads this
    {
      Endpoint(pos, output, fs)
    }

    constructor (root: Path, input: Stream, fs: FileTree)
      requires IsCleanAbs(root)
      ensures Valid() && this.root == root && this.input == input
      ensures State() == Endpoint(0, [], fs)
    {
      this.root := root;
      this.input := input;
      this.pos := 0;
      this.output := [];
      this.fs := fs;
    }

    /**
     * bufio.Reader.ReadByte under the session's deadline. `answered` says
     * whether the server has written since it reached the current position,
     * which is what a client waiting there needs before it sends more.
     */
    method ReadByte(answered: bool) returns (r: ReadResult)
      requires Valid()
      modifies this`pos
      ensures Valid()
      ensures r == ReadAt(input, old(pos), answered) && pos == Advance(input, old(pos), answered)
      ensures pos == if r.Got? then old(pos) + 1 else old(pos)
    {
      if !answered && pos in input.waits {
        r := TimedOut;
      } else if pos == |input.bytes| {
        r := Eof;
      } else {
        r := Got(input.bytes[pos]);
        pos := pos + 1;
      }
    }

    /**
     * bufio.Reader.ReadBytes('\n'): the bytes up to and including the next
     * newline. A line cut off by end of input or by a timeout is consumed
     * as far as it goes and reported as an error (None).
     */
    method ReadLine(answered: bool) returns (line: Option<seq<byte>>)
      requires Valid()
      modifies this`pos
      ensures Valid()
      ensures match Line(input, old(pos), answered)
              case Some(next) => line == Some(input.bytes[old(pos)..next]) && pos == next
              case None => line == None && pos == Avail(input, old(pos), answered)
    {
      var start := pos;
      ghost var limit := Avail(input, start, answered);
      var replied := answered;
      var buf: seq<byte> := [];
      while true
        invariant Valid() && start <= pos <= limit
        invariant pos == start ==> replied == answered
        invariant pos > start ==> !replied
        invariant Avail(input, pos, replied) == limit
        invariant buf == input.bytes[start..pos]
        invariant forall k :: start <= k < pos ==> input.bytes[k] != LF
        decreases limit - pos
      {
        LineByte(input, start, answered, pos, replied);
        var b := ReadByte(replied);
        match b
        case Got(x) =>
          buf := buf + [x];
          replied := false;
          if x == LF {
            return Some(buf);
          }
        case _ =>
          return None;
      }
    }

    /**
     * bufio.Reader.Read into the 32 KiB buffer: the bytes that have
     * arrived, up to the buffer's size, or no bytes and end of file or a
     * timeout (ReadError).
     */
    method Read(buffer: array<byte>, answered: bool) returns (n: nat, status: ReadStatus)
      requires Valid() && buffer.Length == BUFFER_SIZE
      modifies this`pos, buffer
      ensures Valid()
      ensures n == Chunk(input, old(pos), answered)
      ensures status == ReadOk <==> n > 0
      ensures status == ReadError <==> ReadAt(input, old(pos), answered).TimedOut?
      ensures pos == old(pos) + n && buffer[..n] == input.bytes[old(pos)..pos]
    {
      if !answered && pos in input.waits {
        return 0, ReadError;
      }
      if pos == |input.bytes| {
        return 0, ReadEof;
      }
      var from := pos;
      n := Min(BUFFER_SIZE, Avail(input, from, answered) - from);
      var i := 0;
      while i < n
        invariant 0 <= i <= n && pos == from
        invariant buffer[..i] == input.bytes[from..from + i]
      {
        buffer[i] := input.bytes[from + i];
        i := i + 1;
      }
      pos := from + n;
      status := ReadOk;
    }

    /** conn.Write, which the model never sees fail. */
    method Write(data: seq<byte>)
      modifies this`output
      ensures output == old(output) + data
    {
      output := output + data;
    }

    /**
     * The preamble loop of handleConnection: read byte by byte until the
     * bytes read contain "rcp " and end in a NUL. Nothing has been written
     * yet, so a client that waits before that point is never answered and
     * the loop ends without a command.
     */
    method ScanPreamble() returns (fullCommand: Option<seq<byte>>)
      requires Valid()
      modifies this`pos
      ensures Valid()
      ensures match PreambleEnd(input, old(pos))
              case Some(e) => fullCommand == Some(input.bytes[old(pos)..e]) && pos == e
              case None => fullCommand == None && pos == Avail(input, old(pos), false)
    {
      var start := pos;
      ghost var limit := Avail(input, start, false);
      var buf: seq<byte> := [];
      while true
        invariant Valid() && start <= pos <= limit
        invariant Avail(input, pos, false) == limit
        invariant buf == input.bytes[start..pos]
        invariant PreambleEnd(input, start) == ScanAt(input, start, pos)
        decreases limit - pos
      {
        PreambleByte(input, start, pos);
        var b := ReadByte(false);
        match b
        case Got(x) =>
          buf := buf + [x];
          if PreambleComplete(buf) {
            return Some(buf);
          }
        case _ =>
          return None;
      }
    }

    /**
     * The receiving copy loop of handleBinaryFileTransfer, just after the
     * header's acknowledgement: reads are appended to the freshly truncated
     * file at `path` while fewer than `size` bytes have arrived; end of
     * file ends the loop, and a timeout ends it with `timedOut`.
     */
    method CopyPayload(path: Path, size: int) returns (timedOut: bool)
      requires Valid() && path in fs && fs[path].File? && fs[path].data == []
      modifies this`pos, this`fs
      ensures Valid()
      ensures pos == CopyIn(Avail(input, old(pos), true), old(pos), 0, size)
      ensures timedOut == Stalled(input, old(pos), pos, size)
      ensures fs == old(fs)[path := File(old(fs)[path].perm, input.bytes[old(pos)..pos])]
    {
      var perm := fs[path].perm;
      ghost var fs0 := fs;
      var buffer := new byte[BUFFER_SIZE];
      var totalReceived: int := 0;
      var start := pos;
      ghost var limit := Avail(input, start, true);
      var answered := true;
      var data: seq<byte> := [];
      var stop := false;
      timedOut := false;
      assert fs0[path] == File(perm, data);
      assert fs == fs0[path := File(perm, data)];
      while totalReceived < size && !stop
        invariant Valid() && start <= pos <= limit
        invariant answered <==> pos == start
        invariant Avail(input, pos, answered) == limit
        invariant totalReceived == pos - start
        invariant data == input.bytes[start..pos]
        invariant fs == fs0[path := File(perm, data)]
        invariant CopyIn(limit, start, 0, size) == CopyIn(limit, pos, totalReceived, size)
        invariant stop ==> pos == limit && totalReceived < size
        invariant timedOut <==> stop && ReadAt(input, pos, answered).TimedOut?
        decreases |input.bytes| - pos, !stop
      {
        CopyRead(input, start, pos, answered, size);
        var n, status := Read(buffer, answered);
        if status == ReadError {
          timedOut := true;
          stop := true;
        } else if status == ReadEof {
          stop := true;
        } else {
          UpdateTwice(fs0, path, File(perm, data), File(perm, data + buffer[..n]));
          data := data + buffer[..n];
          fs := fs[path := File(perm, data)];
          totalReceived := totalReceived + n;
          answered := false;
        }
      }
      assert CopyIn(limit, pos, totalReceived, size) == pos;
      assert perm == old(fs)[path].perm && start == old(pos);
    }

    /**
     * handleBinaryFileTransfer for one trimmed "C" line: true when the
     * session goes on with the next control line.
     */
    method TransferFile(target: Path, fileInfo: seq<byte>) returns (ok: bool)
      requires Valid() && |fileInfo| >= 1 && IsRooted(target)
      modifies this`pos, this`output, this`fs
      ensures Valid()
      ensures var r := ReceiveFile(root, target, input, fileInfo, old(State()));
              State() == r.ep && ok == r.Continue?
    {
      ghost var ep := State();
      var header := ParseHeader(fileInfo);
      if header.Err? {
        return false;
      }
      var h := header.value;
      var resolved := Resolve(root, target, h.name);
      if resolved.Err? {
        return false;
      }
      var path := resolved.value;
      ok := StoreFile(path, h);
    }

    /**
     * The part of handleBinaryFileTransfer after the name has been resolved:
     * create the directories and the file, acknowledge the header, copy the
     * payload and, unless that timed out, skip its terminator and
     * acknowledge the file.
     */
    method StoreFile(path: Path, h: FileHeader) returns (ok: bool)
      requires Valid()
      modifies this`pos, this`output, this`fs
      ensures Valid()
      ensures var r := Protocol.StoreFile(path, h, input, old(State()));
              State() == r.ep && ok == r.Continue?
    {
      ghost var ep := State();
      var made := MkdirAll(fs, Stack(Dir(path)));
      if made.Err? {
        return false;
      }
      var created := CreateTrunc(made.value, path, OpenMode(h.mode));
      if created.Err? {
        fs := made.value;
        return false;
      }
      fs := created.value;
      Write([ACK]);
      var start := pos;
      var timedOut := CopyPayload(path, h.size);
      ReceiveFileStores(path, h, input, ep, made.value, created.value);
      if timedOut {
        return false;
      }
      // The byte after the payload should be a NUL; any value, end of file or a timeout is accepted.
      var terminator := ReadByte(pos == start);
      Write([ACK]);
      ok := true;
    }

    /** handleReceiveFile for the path after "rcp -t ". */
    method ReceiveFiles(target: Path)
      requires Valid()
      modifies this`pos, this`output, this`fs
      ensures Valid()
      ensures State() == ReceiveSession(root, target, input, old(State()))
    {
      ghost var ep := State();
      var resolved := ResolveTarget(root, target);
      if resolved.Err? {
        return;
      }
      var dest := resolved.value;
      assert ReceiveSession(root, target, input, ep)
             == ReceiveLoop(root, dest, input, Endpoint(ep.pos, ep.output + [ACK, ACK], ep.fs), true);
      Write([ACK]);
      Write([ACK]);
      assert State() == Endpoint(ep.pos, ep.output + [ACK, ACK], ep.fs);
      ReceiveControlLines(dest);
    }

    /**
     * The loop of handleReceiveFile over the control lines, into `dest`,
     * starting just after the two acknowledgements.
     */
    method ReceiveControlLines(dest: Path)
      requires Valid() && IsRooted(dest)
      modifies this`pos, this`output, this`fs
      ensures Valid()
      ensures State() == ReceiveLoop(root, dest, input, old(State()), true)
    {
      ghost var goal := ReceiveLoop(root, dest, input, State(), true);
      var answered := true;
      var done := false;
      while !done
        invariant Valid()
        invariant !done ==> ReceiveLoop(root, dest, input, State(), answered) == goal
        invariant done ==> State() == goal
        decreases |input.bytes| - pos, !done
      {
        done, answered := ReceiveControlLine(dest, answered);
      }
    }

    /**
     * One turn of that loop: read a control line and act on it. `done` is
     * set when the session is over; otherwise input was consumed, and the
     * rest of the loop, from a position the server has `answeredNext` or
     * not, is what remains to be done.
     */
    method ReceiveControlLine(dest: Path, answered: bool) returns (done: bool, answeredNext: bool)
      requires Valid() && IsRooted(dest)
      modifies this`pos, this`output, this`fs
      ensures Valid()
      ensures done ==> State() == ReceiveLoop(root, dest, input, old(State()), answered)
      ensures !done ==> old(pos) < pos
                        && ReceiveLoop(root, dest, input, State(), answeredNext)
                           == ReceiveLoop(root, dest, input, old(State()), answered)
    {
      ghost var ep := State();
      var line := ReadLine(answered);
      match line
      case None =>
        LoopAtEnd(root, dest, input, ep, answered);
        return true, false;
      case Some(l) =>
        ghost var next := pos;
        var command := TrimSpace(l);
        if HasPrefix(command, [UPPER_C]) {
          LoopFileLine(root, dest, input, ep, answered, next, command);
          var ok := TransferFile(dest, command);
          return !ok, true;
        } else if HasPrefix(command, [UPPER_E]) {
          Write([ACK]);
          LoopEndLine(root, dest, input, ep, answered, next, command);
          return true, true;
        } else {
          LoopSkipLine(root, dest, input, ep, answered, next, command);
          return false, false;
        }
    }

    /** handleSendFile for the path after "rcp -f ". */
    method SendFile(source: Path)
      requires Valid()
      modifies this`pos, this`output
      ensures Valid()
      ensures State() == SendSession(root, source, input, old(State()))
    {
      ghost var ep := State();
      var resolved := Resolve(root, root, source);
      if resolved.Err? {
        return;
      }
      var path := resolved.value;
      if path !in fs {
        Write([FAIL]);
        return;
      }
      assert SendSession(root, source, input, ep) == SendOpened(Announce(fs[path], path), fs[path], input, ep);
      SendOpenFile(Announce(fs[path], path), fs[path]);
    }

    /**
     * The part of handleSendFile after the file has been opened and its
     * header line formatted.
     */
    method SendOpenFile(header: seq<byte>, node: Node)
      requires Valid()
      modifies this`pos, this`output
      ensures Valid()
      ensures State() == SendOpened(header, node, input, old(State()))
    {
      ghost var ep := State();
      SendOpenedCases(header, node, input, ep);
      Write([ACK]);
      Write(header);
      var ack := ReadByte(true);
      if ack != Got(ACK) {
        return;
      }
      var sent := SendPayload(node);
      if !sent {
        return;
      }
      Write([ACK]);
      // The client's final acknowledgement is read; its value changes nothing.
      var finalAck := ReadByte(true);
    }

    /**
     * The sending copy loop of handleSendFile: read the open node in 32 KiB
     * pieces and write each piece, until the size Stat reported has been
     * sent or the node reports end of file; false when a read fails.
     */
    method SendPayload(node: Node) returns (ok: bool)
      modifies this`output
      ensures ok == Payload(node).Some?
      ensures output == old(output) + (if ok then Payload(node).value else [])
    {
      var buffer := new byte[BUFFER_SIZE];
      var totalSent := 0;
      var eof := false;
      while totalSent < Size(node) && !eof
        invariant totalSent <= Size(node)
        invariant node.File? ==> output == old(output) + node.data[..totalSent]
        invariant node.Directory? ==> totalSent == 0 && output == old(output)
        invariant eof ==> node.File? && totalSent >= |node.data|
        decreases Size(node) - totalSent, !eof
      {
        var n, status := ReadNode(node, totalSent, buffer);
        if status == ReadError {
          return false;
        }
        if n > 0 {
          assert node.data[..totalSent + n] == node.data[..totalSent] + buffer[..n];
          Write(buffer[..n]);
          totalSent := totalSent + n;
        }
        if status == ReadEof {
          eof := true;
        }
      }
      assert node.File? ==> node.data[..totalSent] == node.data;
      ok := true;
    }

    /** handleConnection: scan the preamble and run the session it asks for. */
    method Serve()
      requires Valid()
      modifies this`pos, this`output, this`fs
      ensures Valid()
      ensures State() == Session(root, input, old(State()))
    {
      var fullCommand := ScanPreamble();
      if fullCommand.None? {
        return;
      }
      match Classify(fullCommand.value)
      case None =>
      case Some(Receive(target)) =>
        ReceiveFiles(target);
      case Some(Send(source)) =>
        SendFile(source);
    }
  }
}

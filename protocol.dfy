/**
 * What a whole connection does, as functions of the client's byte stream
 * and the file tree: the preamble scan, the sink (receive) session with its
 * control-line loop and per-file copy loop, and the source (send) session.
 * The Connection class carries these out step by step and is proved to end
 * in exactly the state these functions describe.
 */
module Protocol {
  import opened Wrappers
  import opened Bytes
  import opened Paths
  import opened Header
  import opened Command
  import opened FileSystem

  /** The 32 KiB buffer of both copy loops. */
  const BUFFER_SIZE: nat := 32768

  /** The status byte that acknowledges a step. */
  const ACK: byte := 0
  /** The status byte the source side sends when it cannot open the file. */
  const FAIL: byte := 1

  /**
   * Everything the client sends, in order, and the positions at which it
   * stops sending until the server has written something back (an rcp
   * client waits for an acknowledgement after its command, after each
   * control line and after each file). Bytes the client sends without
   * waiting have all arrived by the time the server reads them. The end of
   * `bytes` is where the client closes the connection, unless it waits
   * there.
   */
  datatype Stream = Stream(bytes: seq<byte>, waits: set<nat>)

  /** What has happened on the server's side so far. */
  datatype Endpoint = Endpoint(pos: nat, output: seq<byte>, fs: FileTree)

  /**
   * How far reads starting at `pos` get: to the end of input, or to the
   * first position where the client waits for a reply it has not had.
   * `answered` says whether the server has written since it reached `pos`,
   * which releases a client waiting exactly there; past `pos` nothing more
   * is written while reading, so every later wait stops the reads.
   */
  function Avail(s: Stream, pos: nat, answered: bool): (r: nat)
    requires pos <= |s.bytes|
    ensures pos <= r <= |s.bytes|
    ensures r == |s.bytes| || r in s.waits
    ensures r == pos <==> pos == |s.bytes| || (!answered && pos in s.waits)
    decreases |s.bytes| - pos
  {
    if pos == |s.bytes| || (!answered && pos in s.waits) then pos
    else Avail(s, pos + 1, false)
  }

  /** Reads stop at the first wait after `pos`: there is none before where they stop. */
  lemma {:induction false} AvailFirstWait(s: Stream, pos: nat, answered: bool)
    requires pos <= |s.bytes|
    ensures forall k :: pos < k < Avail(s, pos, answered) ==> k !in s.waits
    decreases |s.bytes| - pos
  {
    if pos < Avail(s, pos, answered) {
      AvailFirstWait(s, pos + 1, false);
    }
  }

  /** Once a byte has been read, later reads stop where the first one would have. */
  lemma {:induction false} AvailFrom(s: Stream, pos: nat, answered: bool, k: nat)
    requires pos <= |s.bytes| && pos < k <= Avail(s, pos, answered)
    ensures Avail(s, k, false) == Avail(s, pos, answered)
    decreases k - pos
  {
    if k > pos + 1 {
      AvailFrom(s, pos + 1, false, k);
    }
  }

  /** Reads get at least to `m` when the client does not wait before it. */
  lemma {:induction false} AvailReaches(s: Stream, pos: nat, answered: bool, m: nat)
    requires pos < m <= |s.bytes| && (answered || pos !in s.waits)
    requires forall k :: pos < k < m ==> k !in s.waits
    ensures Avail(s, pos, answered) >= m
    decreases m - pos
  {
    if pos + 1 < m {
      AvailReaches(s, pos + 1, false, m);
    }
  }

  /** The outcome of one read under the session's deadline. */
  datatype ReadResult = Got(b: byte) | Eof | TimedOut

  /**
   * bufio.Reader.ReadByte at `pos`: the byte; end of file once the client
   * has closed the connection; or a timeout when the client is waiting for
   * a reply the server has not sent.
   */
  function ReadAt(s: Stream, pos: nat, answered: bool): (r: ReadResult)
    requires pos <= |s.bytes|
    ensures r.Got? <==> pos < Avail(s, pos, answered)
    ensures r.Got? ==> r.b == s.bytes[pos]
    ensures r.TimedOut? <==> !answered && pos in s.waits
  {
    if !answered && pos in s.waits then TimedOut
    else if pos == |s.bytes| then Eof
    else Got(s.bytes[pos])
  }

  /** Past the byte ReadAt returns, if it returns one. */
  function Advance(s: Stream, pos: nat, answered: bool): (next: nat)
    requires pos <= |s.bytes|
    ensures next <= |s.bytes|
  {
    if ReadAt(s, pos, answered).Got? then pos + 1 else pos
  }

  /**
   * How many bytes one bufio.Reader.Read into the 32 KiB buffer returns at
   * `pos` when the reader's own 4096-byte buffer is empty, so that the read
   * goes to the connection: all that has arrived, up to the buffer's size,
   * and none exactly when ReadAt would not return a byte. The copy loop
   * starts with that buffer empty when the client waited after its control
   * line; otherwise the first read would return only the buffered bytes.
   */
  function Chunk(s: Stream, pos: nat, answered: bool): (n: nat)
    requires pos <= |s.bytes|
    ensures n > 0 <==> ReadAt(s, pos, answered).Got?
    ensures n <= BUFFER_SIZE && pos + n <= Avail(s, pos, answered)
    ensures 0 < n < BUFFER_SIZE ==> pos + n == Avail(s, pos, answered)
  {
    Min(BUFFER_SIZE, Avail(s, pos, answered) - pos)
  }

  /**
   * The receiving copy loop from `pos`, where reads return data up to
   * `limit`: read while fewer than `size` bytes have been received. Each
   * read takes all that has arrived, up to 32 KiB, and is not cut at the
   * number of bytes still expected. The result is where the loop stops;
   * the file receives exactly the bytes from `pos` to there.
   */
  function CopyIn(limit: nat, pos: nat, received: int, size: int): (end: nat)
    requires pos <= limit
    ensures pos <= end <= limit
    ensures received >= size ==> end == pos
    ensures end < limit ==> received + (end - pos) >= size
    ensures end == pos || received + (end - pos) < size + BUFFER_SIZE
    decreases limit - pos
  {
    if received >= size || pos == limit then pos
    else
      var n := Min(BUFFER_SIZE, limit - pos);
      CopyIn(limit, pos + n, received + n, size)
  }

  /** One round of the receiving copy loop. */
  lemma CopyInStep(limit: nat, pos: nat, received: int, size: int, n: nat)
    requires pos < limit && received < size && n == Min(BUFFER_SIZE, limit - pos)
    ensures CopyIn(limit, pos, received, size) == CopyIn(limit, pos + n, received + n, size)
  {
  }

  /**
   * One read of the receiving copy loop that started at `start` and is now
   * at `pos`: a read that returns nothing leaves the loop where reads stop,
   * and one that returns data extends the file by it and leaves the rest of
   * the loop as it was.
   */
  lemma CopyRead(s: Stream, start: nat, pos: nat, answered: bool, size: int)
    requires start <= |s.bytes| && start <= pos <= Avail(s, start, true) && pos - start < size
    requires (answered <==> pos == start) && Avail(s, pos, answered) == Avail(s, start, true)
    requires CopyIn(Avail(s, start, true), start, 0, size) == CopyIn(Avail(s, start, true), pos, pos - start, size)
    ensures var n, limit := Chunk(s, pos, answered), Avail(s, start, true);
            && (n == 0 ==> pos == limit)
            && (n > 0 ==> && Avail(s, pos + n, false) == limit
                          && s.bytes[start..pos + n] == s.bytes[start..pos] + s.bytes[pos..pos + n]
                          && CopyIn(limit, start, 0, size) == CopyIn(limit, pos + n, pos + n - start, size))
  {
    var n, limit := Chunk(s, pos, answered), Avail(s, start, true);
    if n > 0 {
      AvailFrom(s, start, true, pos + n);
      SliceJoin(s.bytes, start, pos, pos + n);
      CopyInStep(limit, pos, pos - start, size, n);
    }
  }

  /**
   * The loop's closed form: it reads whole 32 KiB buffers while data lasts,
   * so it stops at the first multiple of 32 KiB past `pos` that covers what
   * is still expected, or at `limit` if that comes first.
   */
  lemma {:induction false} CopyInRounds(limit: nat, pos: nat, received: int, size: int, k: nat)
    requires pos <= limit && received < size
    requires (k - 1) * BUFFER_SIZE < size - received <= k * BUFFER_SIZE
    ensures CopyIn(limit, pos, received, size) == Min(limit, pos + k * BUFFER_SIZE)
    decreases k
  {
    if pos < limit && limit - pos > BUFFER_SIZE && k > 1 {
      CopyInRounds(limit, pos + BUFFER_SIZE, received + BUFFER_SIZE, size, k - 1);
    }
  }

  /** When data stops right after the payload, the loop receives exactly the payload. */
  lemma {:induction false} CopyInExact(limit: nat, pos: nat, received: int, size: int)
    requires received < size && limit == pos + (size - received)
    ensures CopyIn(limit, pos, received, size) == limit
    decreases limit - pos
  {
    var n := Min(BUFFER_SIZE, limit - pos);
    if received + n < size {
      CopyInExact(limit, pos + n, received + n, size);
    }
  }

  /** When data stops before the payload is complete, the loop reads all there is. */
  lemma CopyInShort(limit: nat, pos: nat, size: int)
    requires pos <= limit && limit - pos < size
    ensures CopyIn(limit, pos, 0, size) == limit
  {
  }

  /** Where the line starting at `pos` ends (just after its '\n'), if it is complete. */
  function LineEnd(bytes: seq<byte>, pos: nat): (r: Option<nat>)
    requires pos <= |bytes|
    ensures r.Some? ==> pos < r.value <= |bytes| && bytes[r.value - 1] == LF
    ensures r.Some? ==> forall k :: pos <= k < r.value - 1 ==> bytes[k] != LF
    ensures r.None? ==> forall k :: pos <= k < |bytes| ==> bytes[k] != LF
  {
    var i := IndexOf(bytes[pos..], LF);
    if pos + i < |bytes| then Some(pos + i + 1) else None
  }

  /** The line that starts at `pos` ends just after the first newline from there. */
  lemma LineEndIs(bytes: seq<byte>, pos: nat, e: nat)
    requires pos < e <= |bytes| && bytes[e - 1] == LF
    requires forall k :: pos <= k < e - 1 ==> bytes[k] != LF
    ensures LineEnd(bytes, pos) == Some(e)
  {
  }

  /** Without a newline after `pos` there is no complete line. */
  lemma LineEndNone(bytes: seq<byte>, pos: nat)
    requires pos <= |bytes|
    requires forall k :: pos <= k < |bytes| ==> bytes[k] != LF
    ensures LineEnd(bytes, pos) == None
  {
  }

  /**
   * bufio.Reader.ReadBytes('\n') at `pos`: where the line ends, when its
   * newline comes before reads stop returning data (end of input, or a
   * client that waits in the middle of the line, which times out).
   */
  function Line(s: Stream, pos: nat, answered: bool): (r: Option<nat>)
    requires pos <= |s.bytes|
    ensures r.Some? ==> pos < r.value <= Avail(s, pos, answered) && s.bytes[r.value - 1] == LF
    ensures r.Some? ==> forall k :: pos <= k < r.value - 1 ==> s.bytes[k] != LF
    ensures r.None? ==> forall k :: pos <= k < Avail(s, pos, answered) ==> s.bytes[k] != LF
  {
    var avail := s.bytes[..Avail(s, pos, answered)];
    var r := LineEnd(avail, pos);
    assert forall k :: 0 <= k < |avail| ==> avail[k] == s.bytes[k];
    r
  }

  /** The line at `pos` ends just after the first newline before reads stop. */
  lemma LineIs(s: Stream, pos: nat, answered: bool, e: nat)
    requires pos <= |s.bytes| && pos < e <= Avail(s, pos, answered) && s.bytes[e - 1] == LF
    requires forall k :: pos <= k < e - 1 ==> s.bytes[k] != LF
    ensures Line(s, pos, answered) == Some(e)
  {
    var avail := s.bytes[..Avail(s, pos, answered)];
    assert forall k :: pos <= k < e ==> avail[k] == s.bytes[k];
    LineEndIs(avail, pos, e);
  }

  /**
   * One byte of the line read, at `i`, with no newline since `start`: a
   * byte read ends the line if it is a newline; a read that returns none
   * leaves the line cut off.
   */
  lemma LineByte(s: Stream, start: nat, answered: bool, i: nat, replied: bool)
    requires start <= |s.bytes| && start <= i <= Avail(s, start, answered)
    requires Avail(s, i, replied) == Avail(s, start, answered)
    requires forall k :: start <= k < i ==> s.bytes[k] != LF
    ensures ReadAt(s, i, replied).Got? ==>
              && i < Avail(s, start, answered)
              && Avail(s, i + 1, false) == Avail(s, start, answered)
              && s.bytes[start..i + 1] == s.bytes[start..i] + [s.bytes[i]]
              && (s.bytes[i] == LF ==> Line(s, start, answered) == Some(i + 1))
    ensures !ReadAt(s, i, replied).Got? ==> Line(s, start, answered) == None && i == Avail(s, start, answered)
  {
    if ReadAt(s, i, replied).Got? {
      AvailFrom(s, start, answered, i + 1);
      SliceSnoc(s.bytes, start, i);
      if s.bytes[i] == LF {
        LineIs(s, start, answered, i + 1);
      }
    } else {
      LineNone(s, start, answered);
    }
  }

  /** Without a newline before reads stop there is no complete line. */
  lemma LineNone(s: Stream, pos: nat, answered: bool)
    requires pos <= |s.bytes|
    requires forall k :: pos <= k < Avail(s, pos, answered) ==> s.bytes[k] != LF
    ensures Line(s, pos, answered) == None
  {
    var avail := s.bytes[..Avail(s, pos, answered)];
    assert forall k :: pos <= k < |avail| ==> avail[k] == s.bytes[k];
    LineEndNone(avail, pos);
  }

  /**
   * The preamble loop of handleConnection at `pos`, before the server has
   * written anything: where the first complete preamble ends, if it does
   * before reads stop returning data.
   */
  function PreambleEnd(s: Stream, pos: nat): (r: Option<nat>)
    requires pos <= |s.bytes|
    ensures r.Some? ==> pos < r.value <= Avail(s, pos, false)
  {
    ScanAt(s, pos, pos)
  }

  /** The preamble scan from `start`, having read the bytes up to `i`. */
  function ScanAt(s: Stream, start: nat, i: nat): (r: Option<nat>)
    requires start <= |s.bytes| && start <= i <= Avail(s, start, false)
    ensures r.Some? ==> i < r.value <= Avail(s, start, false)
  {
    ScanFrom(s.bytes[..Avail(s, start, false)], start, i)
  }

  /**
   * One byte of the preamble loop, read at `i` before the server has
   * written anything: a byte read leaves later reads stopping where the
   * first one would have, and the scan is done if it completes the preamble
   * and goes on to the next byte otherwise; a read that returns no byte
   * leaves the scan without a preamble.
   */
  lemma PreambleByte(s: Stream, start: nat, i: nat)
    requires start <= |s.bytes| && start <= i <= Avail(s, start, false)
    requires Avail(s, i, false) == Avail(s, start, false)
    ensures ReadAt(s, i, false).Got? ==>
              && i < Avail(s, start, false)
              && Avail(s, i + 1, false) == Avail(s, start, false)
              && s.bytes[start..i + 1] == s.bytes[start..i] + [s.bytes[i]]
              && (PreambleComplete(s.bytes[start..i + 1]) ==> ScanAt(s, start, i) == Some(i + 1))
              && (!PreambleComplete(s.bytes[start..i + 1]) ==> ScanAt(s, start, i) == ScanAt(s, start, i + 1))
    ensures !ReadAt(s, i, false).Got? ==> ScanAt(s, start, i) == None && i == Avail(s, start, false)
  {
    if ReadAt(s, i, false).Got? {
      AvailFrom(s, start, false, i + 1);
      SliceSnoc(s.bytes, start, i);
      ScanAtStep(s, start, i);
    }
  }

  /** The preamble scan at `i` in terms of the scan over the bytes reads return. */
  lemma ScanAtStep(s: Stream, start: nat, i: nat)
    requires start <= |s.bytes| && start <= i < Avail(s, start, false)
    ensures PreambleComplete(s.bytes[start..i + 1]) ==> ScanAt(s, start, i) == Some(i + 1)
    ensures !PreambleComplete(s.bytes[start..i + 1]) ==> ScanAt(s, start, i) == ScanAt(s, start, i + 1)
  {
    var avail := s.bytes[..Avail(s, start, false)];
    assert avail[start..i + 1] == s.bytes[start..i + 1];
    ScanStep(avail, start, i);
  }

  datatype Step = Continue(ep: Endpoint) | Halt(ep: Endpoint)

  /**
   * One "C" line of the sink session: parse the header and resolve the name
   * under the target; a malformed header or an escaping name ends the
   * session with nothing written or created.
   */
  function ReceiveFile(root: Path, target: Path, s: Stream, fileInfo: seq<byte>, ep: Endpoint): (r: Step)
    requires |fileInfo| >= 1 && IsRooted(target) && ep.pos <= |s.bytes|
    ensures ep.pos <= r.ep.pos <= |s.bytes|
    ensures r.Halt? ==> r.ep.output == ep.output || r.ep.output == ep.output + [ACK]
    ensures r.Continue? ==> r.ep.output == ep.output + [ACK, ACK]
  {
    match ParseHeader(fileInfo)
    case Err(_) => Halt(ep)
    case Ok(h) =>
      match Resolve(root, target, h.name)
      case Err(_) => Halt(ep)
      case Ok(path) => StoreFile(path, h, s, ep)
  }

  /** A malformed header or an escaping name stops the session with nothing written or changed. */
  lemma ReceiveFileRefuses(root: Path, target: Path, s: Stream, fileInfo: seq<byte>, ep: Endpoint)
    requires |fileInfo| >= 1 && IsRooted(target) && ep.pos <= |s.bytes|
    requires ParseHeader(fileInfo).Err? || Resolve(root, target, ParseHeader(fileInfo).value.name).Err?
    ensures ReceiveFile(root, target, s, fileInfo, ep) == Halt(ep)
  {
  }

  /**
   * The copy loop that began at `start` ended at `end` short of `size`
   * bytes because its read timed out: the client is waiting there, and
   * nothing has been written since the header's acknowledgement.
   */
  predicate Stalled(s: Stream, start: nat, end: nat, size: int)
    requires end <= |s.bytes|
  {
    end - start < size && ReadAt(s, end, end == start).TimedOut?
  }

  /**
   * The rest of a "C" line once its path is known: create the parent
   * directories and the file, send the header acknowledgement and copy the
   * payload. A read that times out in the copy loop ends the session there.
   * Otherwise (enough bytes, or end of file) read the terminator, whatever
   * its value, and even when that read ends in end of file or a timeout,
   * and send the file acknowledgement. A failure to create the directories
   * or the file ends the session before anything is written.
   */
  function StoreFile(path: Path, h: FileHeader, s: Stream, ep: Endpoint): (r: Step)
    requires ep.pos <= |s.bytes|
    ensures ep.pos <= r.ep.pos <= |s.bytes|
    ensures r.Halt? ==> r.ep.output == ep.output || r.ep.output == ep.output + [ACK]
    ensures r.Continue? ==> r.ep.output == ep.output + [ACK, ACK]
  {
    match MkdirAll(ep.fs, Stack(Dir(path)))
    case Err(_) => Halt(ep)
    case Ok(fs1) =>
      match CreateTrunc(fs1, path, OpenMode(h.mode))
      case Err(_) => Halt(Endpoint(ep.pos, ep.output, fs1))
      case Ok(fs2) =>
        var end := CopyIn(Avail(s, ep.pos, true), ep.pos, 0, h.size);
        var fs3 := fs2[path := File(fs2[path].perm, s.bytes[ep.pos..end])];
        if Stalled(s, ep.pos, end, h.size) then Halt(Endpoint(end, ep.output + [ACK], fs3))
        else Continue(Endpoint(Advance(s, end, end == ep.pos), ep.output + [ACK, ACK], fs3))
  }

  /**
   * A "C" line whose directories or file cannot be created: the session
   * ends before the header's acknowledgement, with no input consumed and
   * nothing written; directories made before the file failed stay made.
   */
  lemma StoreFileCreationFails(path: Path, h: FileHeader, s: Stream, ep: Endpoint)
    requires ep.pos <= |s.bytes|
    ensures MkdirAll(ep.fs, Stack(Dir(path))).Err? ==> StoreFile(path, h, s, ep) == Halt(ep)
    ensures var made := MkdirAll(ep.fs, Stack(Dir(path)));
            made.Ok? && CreateTrunc(made.value, path, OpenMode(h.mode)).Err? ==>
              StoreFile(path, h, s, ep) == Halt(Endpoint(ep.pos, ep.output, made.value))
  {
  }

  /**
   * A "C" line whose file can be created: the bytes the copy loop read end
   * up in the file at the resolved path, which keeps the permissions the
   * creation gave it; the client gets one acknowledgement if the loop
   * timed out and two otherwise, once the terminator has been read.
   */
  lemma ReceiveFileStores(path: Path, h: FileHeader, s: Stream, ep: Endpoint, fs1: FileTree, fs2: FileTree)
    requires ep.pos <= |s.bytes|
    requires MkdirAll(ep.fs, Stack(Dir(path))) == Ok(fs1) && CreateTrunc(fs1, path, OpenMode(h.mode)) == Ok(fs2)
    ensures var end := CopyIn(Avail(s, ep.pos, true), ep.pos, 0, h.size);
            var fs3 := fs2[path := File(fs2[path].perm, s.bytes[ep.pos..end])];
            StoreFile(path, h, s, ep)
            == if Stalled(s, ep.pos, end, h.size) then Halt(Endpoint(end, ep.output + [ACK], fs3))
               else Continue(Endpoint(Advance(s, end, end == ep.pos), ep.output + [ACK, ACK], fs3))
  {
  }

  /** Every byte is an acknowledgement. */
  predicate AllAcks(out: seq<byte>)
  {
    forall i :: 0 <= i < |out| ==> out[i] == ACK
  }

  /** Nothing, or one acknowledgement, after `a`. */
  lemma AckOrNothing(a: seq<byte>, b: seq<byte>)
    requires b == a || b == a + [ACK]
    ensures |b| >= |a| && b[..|a|] == a && AllAcks(b[|a|..])
  {
    assert b[|a|..] == [] || b[|a|..] == [ACK];
  }

  /** Acknowledgements after acknowledgements. */
  lemma AcksExtend(a: seq<byte>, b: seq<byte>, c: seq<byte>)
    requires b == a + [ACK, ACK]
    requires |c| >= |b| && c[..|b|] == b && AllAcks(c[|b|..])
    ensures |c| >= |a| && c[..|a|] == a && AllAcks(c[|a|..])
  {
    assert c[|a|..] == [ACK, ACK] + c[|b|..];
  }

  /**
   * The control-line loop of the sink session, reading at `ep.pos` (which
   * the server has `answered` or not): a line cut off by end of input or by
   * a timeout ends the session; a trimmed line starting with 'C' is a file,
   * one starting with 'E' is acknowledged and ends the session, and any
   * other line is skipped without a reply.
   */
  function ReceiveLoop(root: Path, target: Path, s: Stream, ep: Endpoint, answered: bool): (r: Endpoint)
    requires IsRooted(target) && ep.pos <= |s.bytes|
    ensures ep.pos <= r.pos <= |s.bytes|
    ensures |r.output| >= |ep.output| && r.output[..|ep.output|] == ep.output
    ensures AllAcks(r.output[|ep.output|..])
    decreases |s.bytes| - ep.pos
  {
    match Line(s, ep.pos, answered)
    case None =>
      AckOrNothing(ep.output, ep.output);
      Endpoint(Avail(s, ep.pos, answered), ep.output, ep.fs)
    case Some(next) =>
      var command := TrimSpace(s.bytes[ep.pos..next]);
      var ep1 := Endpoint(next, ep.output, ep.fs);
      if HasPrefix(command, [UPPER_C]) then
        match ReceiveFile(root, target, s, command, ep1)
        case Continue(ep2) =>
          var r := ReceiveLoop(root, target, s, ep2, true);
          AcksExtend(ep.output, ep2.output, r.output);
          r
        case Halt(ep2) =>
          AckOrNothing(ep.output, ep2.output);
          ep2
      else if HasPrefix(command, [UPPER_E]) then
        AckOrNothing(ep.output, ep.output + [ACK]);
        Endpoint(next, ep.output + [ACK], ep.fs)
      else ReceiveLoop(root, target, s, ep1, false)
  }

  /** The control-line loop at a line that is cut off: it stops where reads stop. */
  lemma LoopAtEnd(root: Path, target: Path, s: Stream, ep: Endpoint, answered: bool)
    requires IsRooted(target) && ep.pos <= |s.bytes| && Line(s, ep.pos, answered).None?
    ensures ReceiveLoop(root, target, s, ep, answered) == Endpoint(Avail(s, ep.pos, answered), ep.output, ep.fs)
  {
  }

  /** The control-line loop at a "C" line: the file, then (if it went well) the rest. */
  lemma LoopFileLine(root: Path, target: Path, s: Stream, ep: Endpoint, answered: bool, next: nat, command: seq<byte>)
    requires IsRooted(target) && ep.pos <= |s.bytes| && Line(s, ep.pos, answered) == Some(next)
    requires command == TrimSpace(s.bytes[ep.pos..next]) && HasPrefix(command, [UPPER_C])
    ensures var step := ReceiveFile(root, target, s, command, Endpoint(next, ep.output, ep.fs));
            ReceiveLoop(root, target, s, ep, answered)
            == (if step.Continue? then ReceiveLoop(root, target, s, step.ep, true) else step.ep)
  {
  }

  /** The control-line loop at an "E" line: one acknowledgement, and it stops. */
  lemma LoopEndLine(root: Path, target: Path, s: Stream, ep: Endpoint, answered: bool, next: nat, command: seq<byte>)
    requires IsRooted(target) && ep.pos <= |s.bytes| && Line(s, ep.pos, answered) == Some(next)
    requires command == TrimSpace(s.bytes[ep.pos..next])
    requires !HasPrefix(command, [UPPER_C]) && HasPrefix(command, [UPPER_E])
    ensures ReceiveLoop(root, target, s, ep, answered) == Endpoint(next, ep.output + [ACK], ep.fs)
  {
  }

  /** The control-line loop at any other line: the line is skipped and not answered. */
  lemma LoopSkipLine(root: Path, target: Path, s: Stream, ep: Endpoint, answered: bool, next: nat, command: seq<byte>)
    requires IsRooted(target) && ep.pos <= |s.bytes| && Line(s, ep.pos, answered) == Some(next)
    requires command == TrimSpace(s.bytes[ep.pos..next])
    requires !HasPrefix(command, [UPPER_C]) && !HasPrefix(command, [UPPER_E])
    ensures ReceiveLoop(root, target, s, ep, answered)
            == ReceiveLoop(root, target, s, Endpoint(next, ep.output, ep.fs), false)
  {
  }

  /**
   * handleReceiveFile: resolve the target ("" and "." mean "/"), give up
   * silently on an escape, otherwise send two acknowledgements and run the
   * control-line loop.
   */
  function ReceiveSession(root: Path, target: Path, s: Stream, ep: Endpoint): (r: Endpoint)
    requires IsRooted(root) && ep.pos <= |s.bytes|
  {
    match ResolveTarget(root, target)
    case Err(_) => ep
    case Ok(dest) => ReceiveLoop(root, dest, s, Endpoint(ep.pos, ep.output + [ACK, ACK], ep.fs), true)
  }

  /**
   * What the send loop transmits of a node: a file's contents (its reads
   * return all of it, then end of file), nothing for a directory whose
   * reported size is zero, and None when reading fails (a directory with a
   * non-zero size).
   */
  function Payload(node: Node): (r: Option<seq<byte>>)
    ensures r.Some? ==> |r.value| == Size(node)
    ensures node.File? ==> r == Some(node.data)
  {
    match node
    case File(_, data) => Some(data)
    case Directory(_, size) => if size == 0 then Some([]) else None
  }

  /**
   * The control line announcing `path`: Stat's Mode().Perm() (the nine
   * permission bits only), its size and its last element.
   */
  function Announce(node: Node, path: Path): seq<byte>
  {
    FormatHeader(node.perm % 512, Size(node), Base(path))
  }

  /**
   * The part of handleSendFile after the file is open: send 0 and the
   * header line, wait for a 0, then send the payload and a 0 and read the
   * final acknowledgement (whose value changes nothing). Both reads follow
   * a write, so a client waiting for that write has been answered.
   */
  function SendOpened(header: seq<byte>, node: Node, s: Stream, ep: Endpoint): (r: Endpoint)
    requires ep.pos <= |s.bytes|
    ensures r.fs == ep.fs && ep.pos <= r.pos <= |s.bytes|
    ensures HasPrefix(r.output, ep.output + [ACK] + header)
  {
    var out := ep.output + [ACK] + header;
    if ReadAt(s, ep.pos, true) != Got(ACK) then Endpoint(Advance(s, ep.pos, true), out, ep.fs)
    else
      match Payload(node)
      case None => Endpoint(ep.pos + 1, out, ep.fs)
      case Some(data) =>
        var full := out + (data + [ACK]);
        assert full[..|out|] == out;
        Endpoint(Advance(s, ep.pos + 1, true), full, ep.fs)
  }

  /**
   * The three ways an opened file's session ends, after 0 and the header
   * line `header` have been written: the client answers with something other
   * than 0, or it answers 0 and reading fails, or it answers 0 and gets the
   * whole payload and a final 0.
   */
  lemma SendOpenedCases(header: seq<byte>, node: Node, s: Stream, ep: Endpoint)
    requires ep.pos <= |s.bytes|
    ensures var out := ep.output + [ACK] + header;
            && (ReadAt(s, ep.pos, true) != Got(ACK) ==>
                  SendOpened(header, node, s, ep) == Endpoint(Advance(s, ep.pos, true), out, ep.fs))
            && (ReadAt(s, ep.pos, true) == Got(ACK) && Payload(node).None? ==>
                  SendOpened(header, node, s, ep) == Endpoint(ep.pos + 1, out, ep.fs))
            && (ReadAt(s, ep.pos, true) == Got(ACK) && Payload(node).Some? ==>
                  SendOpened(header, node, s, ep)
                  == Endpoint(Advance(s, ep.pos + 1, true), out + Payload(node).value + [ACK], ep.fs))
  {
  }

  /**
   * handleSendFile: resolve the source, give up silently on an escape, send
   * 1 if it cannot be opened, and otherwise serve the opened file.
   */
  function SendSession(root: Path, source: Path, s: Stream, ep: Endpoint): (r: Endpoint)
    requires IsRooted(root) && ep.pos <= |s.bytes|
    ensures r.fs == ep.fs && ep.pos <= r.pos <= |s.bytes|
    ensures HasPrefix(r.output, ep.output)
  {
    match Resolve(root, root, source)
    case Err(_) => ep
    case Ok(path) =>
      if path !in ep.fs then Endpoint(ep.pos, ep.output + [FAIL], ep.fs)
      else
        var r := SendOpened(Announce(ep.fs[path], path), ep.fs[path], s, ep);
        PrefixOfLonger(r.output, ep.output + [ACK], Announce(ep.fs[path], path));
        PrefixOfLonger(r.output, ep.output, [ACK]);
        r
  }

  /**
   * handleConnection: scan the preamble, classify it, and run the session
   * it asks for; a connection that never completes its preamble or asks
   * for something else gets no answer.
   */
  function Session(root: Path, s: Stream, ep: Endpoint): (r: Endpoint)
    requires IsRooted(root) && ep.pos <= |s.bytes|
  {
    match PreambleEnd(s, ep.pos)
    case None => Endpoint(Avail(s, ep.pos, false), ep.output, ep.fs)
    case Some(e) =>
      var ep1 := Endpoint(e, ep.output, ep.fs);
      match Classify(s.bytes[ep.pos..e])
      case None => ep1
      case Some(Receive(target)) => ReceiveSession(root, target, s, ep1)
      case Some(Send(source)) => SendSession(root, source, s, ep1)
  }
}

/**
 * What a client sees and what the file tree becomes over whole sessions:
 * the replies of each session in each of its cases, the storing of a file
 * whose header a sender formatted, and the reading of the lines such a
 * sender writes.
 */
module Properties {
  import opened Wrappers
  import opened Bytes
  import opened Numerals
  import opened Paths
  import opened Header
  import opened Command
  import opened FileSystem
  import opened Protocol

  /**
   * A connection writes nothing and changes no file unless its preamble is
   * complete, names a session, and the session's path stays under the root.
   */
  lemma SilentConnection(root: Path, s: Stream, ep: Endpoint)
    requires IsRooted(root) && ep.pos <= |s.bytes|
    ensures PreambleEnd(s, ep.pos).None? ==>
              Session(root, s, ep) == Endpoint(Avail(s, ep.pos, false), ep.output, ep.fs)
    ensures PreambleEnd(s, ep.pos).Some? ==>
              var e := PreambleEnd(s, ep.pos).value;
              var c := Classify(s.bytes[ep.pos..e]);
              && (c.None? ==> Session(root, s, ep) == Endpoint(e, ep.output, ep.fs))
              && (c.Some? && c.value.Receive? && ResolveTarget(root, c.value.target).Err? ==>
                    Session(root, s, ep) == Endpoint(e, ep.output, ep.fs))
              && (c.Some? && c.value.Send? && Resolve(root, root, c.value.source).Err? ==>
                    Session(root, s, ep) == Endpoint(e, ep.output, ep.fs))
  {
  }

  /**
   * The sink session answers only with acknowledgements: two for the
   * accepted target, then two per stored file (one for a file whose
   * payload read timed out) and one for the end line.
   */
  lemma {:induction false} ReceiveReplies(root: Path, target: Path, s: Stream, ep: Endpoint)
    requires IsRooted(root) && ep.pos <= |s.bytes|
    ensures ResolveTarget(root, target).Err? ==> ReceiveSession(root, target, s, ep) == ep
    ensures ResolveTarget(root, target).Ok? ==>
              var r := ReceiveSession(root, target, s, ep);
              && |r.output| >= |ep.output| + 2
              && r.output[..|ep.output| + 2] == ep.output + [ACK, ACK]
              && AllAcks(r.output[|ep.output|..])
  {
    if ResolveTarget(root, target).Ok? {
      var dest := ResolveTarget(root, target).value;
      var ep1 := Endpoint(ep.pos, ep.output + [ACK, ACK], ep.fs);
      var r := ReceiveLoop(root, dest, s, ep1, true);
      assert r == ReceiveSession(root, target, s, ep);
      AcksExtend(ep.output, ep1.output, r.output);
      assert r.output[..|ep.output| + 2] == r.output[..|ep1.output|];
    }
  }

  /**
   * The source session's replies: nothing for an escaping path, a single 1
   * for a missing one, otherwise 0 and the header line, and, once the
   * client acknowledges with 0, the whole payload and a final 0.
   */
  lemma SendReplies(root: Path, source: Path, s: Stream, ep: Endpoint)
    requires IsRooted(root) && ep.pos <= |s.bytes|
    ensures Resolve(root, root, source).Err? ==> SendSession(root, source, s, ep) == ep
    ensures Resolve(root, root, source).Ok? ==>
              var path := Resolve(root, root, source).value;
              var r := SendSession(root, source, s, ep);
              && (path !in ep.fs ==> r == Endpoint(ep.pos, ep.output + [FAIL], ep.fs))
              && (path in ep.fs && ReadAt(s, ep.pos, true) != Got(ACK) ==>
                    r.output == ep.output + [ACK] + Announce(ep.fs[path], path))
              && (path in ep.fs && ReadAt(s, ep.pos, true) == Got(ACK) && Payload(ep.fs[path]).Some? ==>
                    r.output == ep.output + [ACK] + Announce(ep.fs[path], path)
                                + Payload(ep.fs[path]).value + [ACK])
  {
    if Resolve(root, root, source).Ok? {
      var path := Resolve(root, root, source).value;
      if path in ep.fs {
        SendOpenedCases(Announce(ep.fs[path], path), ep.fs[path], s, ep);
      }
    }
  }

  /**
   * The header a sender formats is accepted by the receiver: once the name
   * resolves to a path whose directory exists and which is not itself a
   * directory, and the client sends the payload and then waits (or
   * closes), exactly the payload is stored there (with the existing file's
   * permissions, or the announced ones for a new file) and the client gets
   * two acknowledgements.
   */
  lemma ReceiveFormatted(root: Path, target: Path, s: Stream, pos: nat, output: seq<byte>, fs: FileTree,
                         perm: nat, data: seq<byte>, name: seq<byte>, path: Path)
    requires IsRooted(target)
    requires perm < 512 && |data| < 0x8000_0000_0000_0000
    requires name != [] && !IsSpace(name[|name| - 1])
    requires Resolve(root, target, name) == Ok(path)
    requires IsDir(fs, Dir(path)) && (path in fs ==> fs[path].File?)
    requires pos <= |s.bytes| && Avail(s, pos, true) == pos + |data| && s.bytes[pos..pos + |data|] == data
    ensures var line := TrimSpace(FormatHeader(perm, |data|, name));
            && HasPrefix(line, [UPPER_C])
            && ReceiveFile(root, target, s, line, Endpoint(pos, output, fs))
               == Continue(Endpoint(pos + |data|, output + [ACK, ACK],
                                    fs[path := File(if path in fs then fs[path].perm else perm, data)]))
  {
    var h := FileHeader(perm, |data|, name);
    FormattedHeaderParsed(root, target, s, Endpoint(pos, output, fs), perm, |data|, name, path);
    StorePayloadThenWait(path, h, s, pos, output, fs, data);
  }

  /** The trimmed line a sender formats reaches the creation of its file. */
  lemma FormattedHeaderParsed(root: Path, target: Path, s: Stream, ep: Endpoint,
                              perm: nat, size: nat, name: seq<byte>, path: Path)
    requires IsRooted(target) && ep.pos <= |s.bytes|
    requires perm < 512 && size < 0x8000_0000_0000_0000
    requires name != [] && !IsSpace(name[|name| - 1])
    requires Resolve(root, target, name) == Ok(path)
    ensures var line := TrimSpace(FormatHeader(perm, size, name));
            && HasPrefix(line, [UPPER_C])
            && ReceiveFile(root, target, s, line, ep) == StoreFile(path, FileHeader(perm, size, name), s, ep)
  {
    HeaderRoundTrip(perm, size, name);
  }

  /**
   * Storing a file whose directory exists and which is not a directory: the
   * bytes the copy loop reads replace the contents, and the session goes
   * on unless that loop timed out.
   */
  lemma StoreIntoDirectory(path: Path, h: FileHeader, s: Stream, pos: nat, output: seq<byte>, fs: FileTree)
    requires IsRooted(path) && pos <= |s.bytes|
    requires IsDir(fs, Dir(path)) && (path in fs ==> fs[path].File?)
    ensures var end := CopyIn(Avail(s, pos, true), pos, 0, h.size);
            var fs' := fs[path := File(Keep(fs, path, OpenMode(h.mode)), s.bytes[pos..end])];
            StoreFile(path, h, s, Endpoint(pos, output, fs))
            == if Stalled(s, pos, end, h.size) then Halt(Endpoint(end, output + [ACK], fs'))
               else Continue(Endpoint(Advance(s, end, end == pos), output + [ACK, ACK], fs'))
  {
    var end := CopyIn(Avail(s, pos, true), pos, 0, h.size);
    ParentExists(fs, path);
    var keep := Keep(fs, path, OpenMode(h.mode));
    var fs2 := fs[path := File(keep, [])];
    assert CreateTrunc(fs, path, OpenMode(h.mode)) == Ok(fs2);
    ReceiveFileStores(path, h, s, Endpoint(pos, output, fs), fs, fs2);
    UpdateTwice(fs, path, File(keep, []), File(keep, s.bytes[pos..end]));
  }

  /** Storing a file whose copy loop did not time out, in terms of where it and the terminator read ended. */
  lemma StoreGoesOn(path: Path, h: FileHeader, s: Stream, pos: nat, output: seq<byte>, fs: FileTree,
                    end: nat, next: nat, stored: seq<byte>)
    requires IsRooted(path) && pos <= |s.bytes|
    requires IsDir(fs, Dir(path)) && (path in fs ==> fs[path].File?)
    requires end == CopyIn(Avail(s, pos, true), pos, 0, h.size) && !Stalled(s, pos, end, h.size)
    requires next == Advance(s, end, end == pos) && stored == s.bytes[pos..end]
    ensures StoreFile(path, h, s, Endpoint(pos, output, fs))
            == Continue(Endpoint(next, output + [ACK, ACK], fs[path := File(Keep(fs, path, OpenMode(h.mode)), stored)]))
  {
    StoreIntoDirectory(path, h, s, pos, output, fs);
  }

  /**
   * A client that sends the payload and then waits (or closes the
   * connection): exactly the payload is stored, nothing more is consumed,
   * and the client gets two acknowledgements.
   */
  lemma StorePayloadThenWait(path: Path, h: FileHeader, s: Stream, pos: nat, output: seq<byte>, fs: FileTree,
                             data: seq<byte>)
    requires IsRooted(path) && h.size == |data|
    requires IsDir(fs, Dir(path)) && (path in fs ==> fs[path].File?)
    requires pos <= |s.bytes| && Avail(s, pos, true) == pos + |data| && s.bytes[pos..pos + |data|] == data
    ensures StoreFile(path, h, s, Endpoint(pos, output, fs))
            == Continue(Endpoint(pos + |data|, output + [ACK, ACK], fs[path := File(Keep(fs, path, OpenMode(h.mode)), data)]))
  {
    StoreIntoDirectory(path, h, s, pos, output, fs);
    if |data| > 0 {
      CopyInExact(pos + |data|, pos, 0, |data|);
    }
  }

  /**
   * The way an rcp client sends a file: it waits after its control line
   * for the acknowledgement (so bufio holds nothing when the copy loop
   * starts and every read goes to the connection), then sends the payload
   * and its NUL terminator together, and waits. Unless the payload fills a
   * whole number of 32 KiB buffers, the copy loop's last read takes the
   * terminator too and it is stored at the end of the file; the terminator
   * read that follows times out (or meets end of file) and the file is
   * acknowledged anyway.
   */
  lemma StorePayloadAndTerminator(path: Path, h: FileHeader, s: Stream, pos: nat, output: seq<byte>, fs: FileTree,
                                  data: seq<byte>)
    requires IsRooted(path) && h.size == |data|
    requires IsDir(fs, Dir(path)) && (path in fs ==> fs[path].File?)
    requires pos <= |s.bytes| && pos in s.waits && Avail(s, pos, true) == pos + |data| + 1
    requires s.bytes[pos..pos + |data| + 1] == data + [NUL]
    ensures var stored := if |data| % BUFFER_SIZE == 0 then data else data + [NUL];
            StoreFile(path, h, s, Endpoint(pos, output, fs))
            == Continue(Endpoint(pos + |data| + 1, output + [ACK, ACK],
                                 fs[path := File(Keep(fs, path, OpenMode(h.mode)), stored)]))
  {
    var limit := pos + |data| + 1;
    var end := CopyIn(limit, pos, 0, |data|);
    CopyInPastPayload(pos, |data|);
    SliceLast(s.bytes, pos, data, NUL);
    if end == limit {
      assert Advance(s, end, false) == limit;
    } else if end > pos {
      AvailFrom(s, pos, true, end);
    }
    var stored := if |data| % BUFFER_SIZE == 0 then data else data + [NUL];
    StoreGoesOn(path, h, s, pos, output, fs, end, limit, stored);
  }

  /**
   * The copy loop over a payload of `n` bytes with one more byte behind it:
   * the last read takes that byte too, unless the payload fills a whole
   * number of buffers.
   */
  lemma CopyInPastPayload(pos: nat, n: nat)
    ensures CopyIn(pos + n + 1, pos, 0, n) == if n % BUFFER_SIZE == 0 then pos + n else pos + n + 1
  {
    if n > 0 {
      var k := BuffersFor(n);
      CopyInRounds(pos + n + 1, pos, 0, n, k);
    }
  }

  /** How many 32 KiB buffers `n` bytes take. */
  lemma BuffersFor(n: nat) returns (k: nat)
    requires n > 0
    ensures (k - 1) * BUFFER_SIZE < n <= k * BUFFER_SIZE
    ensures n % BUFFER_SIZE == 0 <==> n == k * BUFFER_SIZE
  {
    k := n / BUFFER_SIZE + (if n % BUFFER_SIZE == 0 then 0 else 1);
  }

  /**
   * A client that sends fewer bytes than announced and then waits: the
   * copy loop's next read times out, the file keeps what arrived, and the
   * session ends with only the header's acknowledgement.
   */
  lemma StoreShortThenWait(path: Path, h: FileHeader, s: Stream, pos: nat, output: seq<byte>, fs: FileTree,
                           data: seq<byte>)
    requires IsRooted(path) && 0 < |data| < h.size
    requires IsDir(fs, Dir(path)) && (path in fs ==> fs[path].File?)
    requires pos <= |s.bytes| && Avail(s, pos, true) == pos + |data| && pos + |data| in s.waits
    requires s.bytes[pos..pos + |data|] == data
    ensures StoreFile(path, h, s, Endpoint(pos, output, fs))
            == Halt(Endpoint(pos + |data|, output + [ACK], fs[path := File(Keep(fs, path, OpenMode(h.mode)), data)]))
  {
    StoreIntoDirectory(path, h, s, pos, output, fs);
    CopyInShort(pos + |data|, pos, h.size);
  }

  /**
   * A client that sends fewer bytes than announced and closes the
   * connection: the copy loop and the terminator read both meet end of
   * file, and the file is stored with what arrived and acknowledged.
   */
  lemma StoreShortThenClose(path: Path, h: FileHeader, s: Stream, pos: nat, output: seq<byte>, fs: FileTree)
    requires IsRooted(path) && pos <= |s.bytes| && |s.bytes| - pos < h.size
    requires IsDir(fs, Dir(path)) && (path in fs ==> fs[path].File?)
    requires |s.bytes| !in s.waits && forall k :: pos < k < |s.bytes| ==> k !in s.waits
    ensures StoreFile(path, h, s, Endpoint(pos, output, fs))
            == Continue(Endpoint(|s.bytes|, output + [ACK, ACK], fs[path := File(Keep(fs, path, OpenMode(h.mode)), s.bytes[pos..])]))
  {
    StoreIntoDirectory(path, h, s, pos, output, fs);
    if pos < |s.bytes| {
      AvailReaches(s, pos, true, |s.bytes|);
    }
    CopyInShort(|s.bytes|, pos, h.size);
    assert s.bytes[pos..|s.bytes|] == s.bytes[pos..];
  }

  /** The octal mode "40000755" is accepted, and the file is created set-user-ID 04755. */
  lemma SetuidModeParses()
    ensures ParseInt([DIGIT0 + 4, DIGIT0, DIGIT0, DIGIT0, DIGIT0, DIGIT0 + 7, DIGIT0 + 5, DIGIT0 + 5], 8, 32)
            == Some(0x80_01ED)
    ensures OpenMode(0x80_01ED) == 0x9ED
  {
    var d := [DIGIT0 + 4, DIGIT0, DIGIT0, DIGIT0, DIGIT0, DIGIT0 + 7, DIGIT0 + 5, DIGIT0 + 5];
    assert d[..1][..0] == [] && DigitsValue(d[..1], 8) == 4;
    assert d[..2][..1] == d[..1] && DigitsValue(d[..2], 8) == 32;
    assert d[..3][..2] == d[..2] && DigitsValue(d[..3], 8) == 256;
    assert d[..4][..3] == d[..3] && DigitsValue(d[..4], 8) == 2048;
    assert d[..5][..4] == d[..4] && DigitsValue(d[..5], 8) == 16384;
    assert d[..6][..5] == d[..5] && DigitsValue(d[..6], 8) == 131079;
    assert d[..7][..6] == d[..6] && DigitsValue(d[..7], 8) == 1048637;
    assert d[..7] == d[..|d| - 1] && DigitsValue(d, 8) == 0x80_01ED;
    SetuidMode();
  }

  /** MkdirAll of the directory of a path, when that directory exists, changes nothing. */
  lemma ParentExists(fs: FileTree, path: Path)
    requires IsRooted(path) && IsDir(fs, Dir(path))
    ensures MkdirAll(fs, Stack(Dir(path))) == Ok(fs)
  {
    assert path[0] == SLASH;
    CleanIdempotent(path[..LastSlash(path) + 1]);
    CleanAbsShape(Dir(path));
  }

  /** A line whose only newline is its last byte is read whole. */
  lemma LineEndAt(bytes: seq<byte>, pos: nat, line: seq<byte>)
    requires pos + |line| <= |bytes| && bytes[pos..pos + |line|] == line
    requires line != [] && line[|line| - 1] == LF && LF !in line[..|line| - 1]
    ensures LineEnd(bytes, pos) == Some(pos + |line|)
    ensures bytes[pos..LineEnd(bytes, pos).value] == line
  {
    var rest := bytes[pos..];
    var i := IndexOf(rest, LF);
    assert rest[|line| - 1] == LF;
    assert forall j :: 0 <= j < |line| - 1 ==> rest[j] == line[..|line| - 1][j];
  }

  /** A line the client sends without waiting inside it is read whole, up to its only newline. */
  lemma LineAt(s: Stream, pos: nat, answered: bool, line: seq<byte>)
    requires pos + |line| <= |s.bytes| && s.bytes[pos..pos + |line|] == line
    requires line != [] && line[|line| - 1] == LF && LF !in line[..|line| - 1]
    requires answered || pos !in s.waits
    requires forall k :: pos < k < pos + |line| ==> k !in s.waits
    ensures Line(s, pos, answered) == Some(pos + |line|)
  {
    AvailReaches(s, pos, answered, pos + |line|);
    var avail := s.bytes[..Avail(s, pos, answered)];
    assert avail[pos..pos + |line|] == line;
    LineEndAt(avail, pos, line);
  }

  /** The header line a sender formats is read whole. */
  lemma FormattedLineRead(s: Stream, pos: nat, perm: nat, size: nat, name: seq<byte>)
    requires LF !in name
    requires var line := FormatHeader(perm, size, name);
             && pos + |line| <= |s.bytes| && s.bytes[pos..pos + |line|] == line
             && forall k :: pos < k < pos + |line| ==> k !in s.waits
    ensures Line(s, pos, true) == Some(pos + |FormatHeader(perm, size, name)|)
  {
    FormattedLineShape(perm, size, name);
    LineAt(s, pos, true, FormatHeader(perm, size, name));
  }

  /** The header line a sender formats has its only newline at its end. */
  lemma FormattedLineShape(perm: nat, size: nat, name: seq<byte>)
    requires LF !in name
    ensures var line := FormatHeader(perm, size, name);
            LF !in line[..|line| - 1]
  {
    var oct := FormatOctal4(perm);
    var dec := FormatDecimal(size);
    Octal4Digits(perm);
    NotAmongDigits(oct, 8, LF);
    NotAmongDigits(dec, 10, LF);
    var line := FormatHeader(perm, size, name);
    assert line[..|line| - 1] == [UPPER_C] + oct + [SPACE] + dec + [SPACE] + name;
  }

  /** An "E" line is acknowledged and ends the loop. */
  lemma EndLineStep(root: Path, target: Path, s: Stream, pos: nat, output: seq<byte>, fs: FileTree)
    requires IsRooted(target) && pos + 2 <= |s.bytes|
    requires s.bytes[pos..pos + 2] == [UPPER_E, LF] && pos + 1 !in s.waits
    ensures ReceiveLoop(root, target, s, Endpoint(pos, output, fs), true) == Endpoint(pos + 2, output + [ACK], fs)
  {
    var end := [UPPER_E, LF];
    assert end[..1] == [UPPER_E];
    LineAt(s, pos, true, end);
    TrimSpaceNoop([UPPER_E]);
    assert TrimSpace(end) == [UPPER_E];
    LoopEndLine(root, target, s, Endpoint(pos, output, fs), true, pos + 2, [UPPER_E]);
  }

  /**
   * A line that is neither "C" nor "E" gets no reply: a client that waits
   * for one after it (as rcp -p does after its "T" line) is never answered,
   * and the session ends there.
   */
  lemma UnansweredLine(root: Path, target: Path, s: Stream, ep: Endpoint, answered: bool, next: nat)
    requires IsRooted(target) && ep.pos <= |s.bytes| && Line(s, ep.pos, answered) == Some(next)
    requires var c := TrimSpace(s.bytes[ep.pos..next]); !HasPrefix(c, [UPPER_C]) && !HasPrefix(c, [UPPER_E])
    requires next in s.waits
    ensures ReceiveLoop(root, target, s, ep, answered) == Endpoint(next, ep.output, ep.fs)
  {
    LoopSkipLine(root, target, s, ep, answered, next, TrimSpace(s.bytes[ep.pos..next]));
    LineNone(s, next, false);
    LoopAtEnd(root, target, s, Endpoint(next, ep.output, ep.fs), false);
  }
}

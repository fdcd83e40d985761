/**
 * The rsh-style preamble that opens every connection: NUL-terminated
 * fields "<port>\0<local user>\0<remote user>\0<command>\0". The server
 * reads it byte by byte until the bytes read so far contain "rcp " and end
 * in a NUL, then routes on the fourth field.
 */
module Command {
  import opened Wrappers
  import opened Bytes
  import opened Paths

  /** "rcp " */
  const RCP: seq<byte> := [114, 99, 112, 32]
  /** "rcp -t ": the client sends files to the server (sink mode). */
  const SINK_PREFIX: seq<byte> := [114, 99, 112, 32, 45, 116, 32]
  /** "rcp -f ": the client fetches a file from the server (source mode). */
  const SOURCE_PREFIX: seq<byte> := [114, 99, 112, 32, 45, 102, 32]

  /** The stop condition of the preamble scan. */
  predicate PreambleComplete(buf: seq<byte>)
  {
    Contains(buf, RCP) && HasSuffix(buf, [NUL])
  }

  /**
   * The scan over the input from `start`, having read the bytes up to `i`:
   * the end of the first complete preamble, or None when the input runs out
   * first.
   */
  function ScanFrom(input: seq<byte>, start: nat, i: nat): (r: Option<nat>)
    requires start <= i <= |input|
    ensures r.Some? ==> i < r.value <= |input|
    decreases |input| - i
  {
    if i == |input| then None
    else if PreambleComplete(input[start..i + 1]) then Some(i + 1)
    else ScanFrom(input, start, i + 1)
  }

  /**
   * What the scan finds: the first end after `i` at which the bytes from
   * `start` form a complete preamble, or None when there is no such end.
   */
  lemma {:induction false} ScanFromSpec(input: seq<byte>, start: nat, i: nat)
    requires start <= i <= |input|
    ensures var r := ScanFrom(input, start, i);
            && (r.Some? ==> PreambleComplete(input[start..r.value]))
            && (r.Some? ==> forall k :: i < k < r.value ==> !PreambleComplete(input[start..k]))
            && (r.None? ==> forall k :: i < k <= |input| ==> !PreambleComplete(input[start..k]))
    decreases |input| - i
  {
    if i < |input| && !PreambleComplete(input[start..i + 1]) {
      ScanFromSpec(input, start, i + 1);
    }
  }

  /** One step of the scan: it stops at i + 1 when that completes a preamble, else goes on. */
  lemma ScanStep(input: seq<byte>, start: nat, i: nat)
    requires start <= i < |input|
    ensures PreambleComplete(input[start..i + 1]) ==> ScanFrom(input, start, i) == Some(i + 1)
    ensures !PreambleComplete(input[start..i + 1]) ==> ScanFrom(input, start, i) == ScanFrom(input, start, i + 1)
  {
  }

  /**
   * The scan from the start of the input stops at the first prefix that is
   * a complete preamble and consumes nothing after it; when there is none
   * it consumes everything.
   */
  lemma ScanStopsAtFirstCompletion(input: seq<byte>)
    ensures match ScanFrom(input, 0, 0)
            case Some(e) =>
              && 0 < e <= |input| && PreambleComplete(input[..e])
              && forall k :: 0 <= k < e ==> !PreambleComplete(input[..k])
            case None => forall k :: 0 <= k <= |input| ==> !PreambleComplete(input[..k])
  {
    assert input[0..0] == [] && !HasSuffix([], [NUL]);
    ScanFromSpec(input, 0, 0);
    match ScanFrom(input, 0, 0)
    case Some(e) =>
      assert input[0..e] == input[..e];
      forall k | 0 <= k < e ensures !PreambleComplete(input[..k]) {
        assert input[0..k] == input[..k];
      }
    case None =>
      forall k | 0 <= k <= |input| ensures !PreambleComplete(input[..k]) {
        assert input[0..k] == input[..k];
      }
  }

  datatype Command = Receive(target: Path) | Send(source: Path)

  /**
   * Splits the completed preamble on NUL and routes on the fourth field:
   * "rcp -t <path>" receives into <path>, "rcp -f <path>" sends <path>;
   * anything else is rejected.
   */
  function Classify(fullCommand: seq<byte>): (r: Option<Command>)
    ensures r.Some? ==> |Split(fullCommand, NUL)| >= 4
    ensures r.Some? && r.value.Receive? ==>
              Split(fullCommand, NUL)[3] == SINK_PREFIX + r.value.target
    ensures r.Some? && r.value.Send? ==>
              Split(fullCommand, NUL)[3] == SOURCE_PREFIX + r.value.source
              && !HasPrefix(Split(fullCommand, NUL)[3], SINK_PREFIX)
    ensures r.None? ==>
              (|Split(fullCommand, NUL)| < 4
               || (!HasPrefix(Split(fullCommand, NUL)[3], SINK_PREFIX)
                   && !HasPrefix(Split(fullCommand, NUL)[3], SOURCE_PREFIX)))
  {
    var parts := Split(fullCommand, NUL);
    if |parts| < 4 then None
    else
      var command := parts[3];
      if HasPrefix(command, SINK_PREFIX) then Some(Receive(TrimPrefix(command, SINK_PREFIX)))
      else if HasPrefix(command, SOURCE_PREFIX) then Some(Send(TrimPrefix(command, SOURCE_PREFIX)))
      else None
  }

  /** The preamble a well-behaved client sends. */
  function Preamble(port: seq<byte>, localUser: seq<byte>, remoteUser: seq<byte>, command: seq<byte>): (p: seq<byte>)
    ensures HasSuffix(p, [NUL])
  {
    port + [NUL] + localUser + [NUL] + remoteUser + [NUL] + command + [NUL]
  }

  /** The fields before the command, with their terminators. */
  function Head(port: seq<byte>, localUser: seq<byte>, remoteUser: seq<byte>): seq<byte>
  {
    port + [NUL] + localUser + [NUL] + remoteUser + [NUL]
  }

  /** A standard preamble splits on NUL into its four fields and a trailing empty piece. */
  lemma PreambleFields(port: seq<byte>, localUser: seq<byte>, remoteUser: seq<byte>, command: seq<byte>)
    requires NUL !in port && NUL !in localUser && NUL !in remoteUser && NUL !in command
    ensures Split(Preamble(port, localUser, remoteUser, command), NUL)
            == [port, localUser, remoteUser, command, []]
  {
    var empty: seq<byte> := [];
    SplitNoSep(port, NUL);
    var a := port + [NUL] + localUser;
    RestThenField(port, localUser, [port]);
    var b := a + [NUL] + remoteUser;
    RestThenField(a, remoteUser, [port, localUser]);
    var c := b + [NUL] + command;
    RestThenField(b, command, [port, localUser, remoteUser]);
    RestThenField(c, empty, [port, localUser, remoteUser, command]);
    assert Preamble(port, localUser, remoteUser, command) == c + [NUL] + empty;
  }

  /** Fields split into `pieces`, then NUL and a field without NUL: that field is the last piece. */
  lemma RestThenField(front: seq<byte>, field: seq<byte>, pieces: seq<seq<byte>>)
    requires NUL !in field && Split(front, NUL) == pieces
    ensures Split(front + [NUL] + field, NUL) == pieces + [field]
  {
    SplitNoSep(field, NUL);
    SplitAppend(front, field, NUL);
  }

  /**
   * When the first three fields hold no "rcp " and the command starts with
   * it, the scan stops exactly at the command's terminating NUL, whatever
   * follows, and the command is classified by its prefix.
   */
  lemma StandardPreamble(port: seq<byte>, localUser: seq<byte>, remoteUser: seq<byte>,
                         command: seq<byte>, rest: seq<byte>)
    requires NUL !in port && NUL !in localUser && NUL !in remoteUser && NUL !in command
    requires !Contains(Head(port, localUser, remoteUser), RCP) && HasPrefix(command, RCP)
    ensures var p := Preamble(port, localUser, remoteUser, command);
            && ScanFrom(p + rest, 0, 0) == Some(|p|)
            && Classify(p) == (if HasPrefix(command, SINK_PREFIX) then Some(Receive(command[|SINK_PREFIX|..]))
                               else if HasPrefix(command, SOURCE_PREFIX) then Some(Send(command[|SOURCE_PREFIX|..]))
                               else None)
  {
    var head := Head(port, localUser, remoteUser);
    var p := Preamble(port, localUser, remoteUser, command);
    var input := p + rest;
    assert p == head + command + [NUL];
    PreambleFields(port, localUser, remoteUser, command);
    // The whole preamble is complete.
    assert input[..|p|] == p;
    assert p[|head|..|head| + |RCP|] == RCP;
    ContainsAt(p, RCP, |head|);
    // No shorter prefix is.
    forall k | 0 <= k < |p| ensures !PreambleComplete(input[..k]) {
      assert input[..k] == p[..k];
      if k <= |head| {
        if Contains(p[..k], RCP) {
          assert p[..k] == head[..k];
          ContainsPrefix(head, k, RCP);
        }
      } else {
        assert p[k - 1] == command[k - 1 - |head|];
        assert p[..k][k - 1] != NUL;
      }
    }
    ScanStopsAtFirstCompletion(input);
  }
}

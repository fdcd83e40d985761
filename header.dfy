/**
 * The per-file control line of the rcp protocol, "C<mode> <size> <name>":
 * the receiver's parser (SplitN on " " into three parts, octal 32-bit mode,
 * decimal 64-bit size, the rest as the name) and the sender's "C%04o %d %s\n"
 * formatter.
 */
module Header {
  import opened Wrappers
  import opened Bytes
  import opened Numerals

  datatype FileHeader = FileHeader(mode: int, size: int, name: seq<byte>)

  datatype HeaderError = BadFormat | BadMode | BadSize

  /**
   * Parses a control line that starts with 'C' (already trimmed by the
   * caller). The first byte is dropped and the rest trimmed again before
   * splitting.
   */
  function ParseHeader(fileInfo: seq<byte>): (r: Result<FileHeader, HeaderError>)
    requires |fileInfo| >= 1
    ensures r.Ok? ==> -0x8000_0000 <= r.value.mode < 0x8000_0000
    ensures r.Ok? ==> -0x8000_0000_0000_0000 <= r.value.size < 0x8000_0000_0000_0000
    ensures r.Ok? ==> HasSuffix(TrimSpace(fileInfo[1..]), r.value.name)
  {
    var parts := SplitN(TrimSpace(fileInfo[1..]), SPACE, 3);
    if |parts| != 3 then Err(BadFormat)
    else
      match ParseInt(parts[0], 8, 32)
      case None => Err(BadMode)
      case Some(mode) =>
        match ParseInt(parts[1], 10, 64)
        case None => Err(BadSize)
        case Some(size) =>
          SplitNLast(TrimSpace(fileInfo[1..]), SPACE, 3);
          Ok(FileHeader(mode, size, parts[2]))
  }

  /** The last piece of SplitN is a suffix of the input. */
  lemma {:induction false} SplitNLast(s: seq<byte>, sep: byte, n: nat)
    requires n >= 1
    ensures HasSuffix(s, Last(SplitN(s, sep, n)))
    decreases n
  {
    if n > 1 && IndexOf(s, sep) < |s| {
      SplitNLast(s[IndexOf(s, sep) + 1..], sep, n - 1);
      SplitNLastStep(s, sep, n);
    } else {
      SplitNWhole(s, sep, n);
    }
  }

  function Last(parts: seq<seq<byte>>): seq<byte>
    requires parts != []
  {
    parts[|parts| - 1]
  }

  /** The inductive step of SplitNLast. */
  lemma SplitNLastStep(s: seq<byte>, sep: byte, n: nat)
    requires n > 1 && IndexOf(s, sep) < |s|
    requires HasSuffix(s[IndexOf(s, sep) + 1..], Last(SplitN(s[IndexOf(s, sep) + 1..], sep, n - 1)))
    ensures HasSuffix(s, Last(SplitN(s, sep, n)))
  {
    var i := IndexOf(s, sep);
    var rest := SplitN(s[i + 1..], sep, n - 1);
    assert SplitN(s, sep, n) == [s[..i]] + rest;
    assert Last(SplitN(s, sep, n)) == Last(rest);
    SuffixOfTail(s, i + 1, Last(rest));
  }

  /** With one piece allowed, or no separator, SplitN gives the input whole. */
  lemma SplitNWhole(s: seq<byte>, sep: byte, n: nat)
    requires n >= 1 && (n == 1 || IndexOf(s, sep) == |s|)
    ensures HasSuffix(s, Last(SplitN(s, sep, n)))
  {
    assert SplitN(s, sep, n) == [s];
    assert s[|s| - |s|..] == s;
  }

  /** The control line the sending side writes: "C%04o %d %s\n". */
  function FormatHeader(perm: nat, size: nat, name: seq<byte>): (line: seq<byte>)
    ensures |line| >= 1 && line[0] == UPPER_C && line[|line| - 1] == LF
  {
    [UPPER_C] + FormatOctal4(perm) + [SPACE] + FormatDecimal(size) + [SPACE] + name + [LF]
  }

  /** A field without spaces followed by a space: that space is the first one. */
  lemma IndexAfterField(a: seq<byte>, rest: seq<byte>)
    requires SPACE !in a
    ensures IndexOf(a + [SPACE] + rest, SPACE) == |a|
    ensures (a + [SPACE] + rest)[..|a|] == a && (a + [SPACE] + rest)[|a| + 1..] == rest
  {
    var s := a + [SPACE] + rest;
    assert s[|a|] == SPACE;
    assert forall j :: 0 <= j < |a| ==> s[j] == a[j];
  }

  /** The formatted line, trimmed, loses only its trailing newline. */
  lemma TrimFormatted(x: seq<byte>)
    requires x != [] && !IsSpace(x[|x| - 1])
    ensures TrimSpace([UPPER_C] + x + [LF]) == [UPPER_C] + x
  {
    var line := [UPPER_C] + x + [LF];
    assert TrimLeft(line) == line;
    assert line[..|line| - 1] == [UPPER_C] + x;
    assert TrimRight(line) == TrimRight([UPPER_C] + x);
    assert ([UPPER_C] + x)[|x|] == x[|x| - 1];
  }

  /** Splitting "<a> <b> <name>" into three pieces, with no space in a or b, recovers the fields. */
  lemma SplitFields(a: seq<byte>, b: seq<byte>, name: seq<byte>)
    requires SPACE !in a && SPACE !in b
    ensures SplitN(a + [SPACE] + (b + [SPACE] + name), SPACE, 3) == [a, b, name]
  {
    var tail := b + [SPACE] + name;
    IndexAfterField(a, tail);
    IndexAfterField(b, name);
    assert SplitN(name, SPACE, 1) == [name];
    assert SplitN(tail, SPACE, 2) == [b, name];
  }

  /**
   * A control line whose trimmed body (after the 'C') is "<a> <b> <name>",
   * with no space in a or b, is accepted exactly when a is an octal number
   * that fits 32 bits and b a decimal number that fits 64 bits; the name is
   * everything after the second space, spaces included.
   */
  lemma ParseHeaderFields(fileInfo: seq<byte>, a: seq<byte>, b: seq<byte>, name: seq<byte>)
    requires |fileInfo| >= 1 && SPACE !in a && SPACE !in b
    requires TrimSpace(fileInfo[1..]) == a + [SPACE] + (b + [SPACE] + name)
    ensures ParseHeader(fileInfo).Ok? <==> ParseInt(a, 8, 32).Some? && ParseInt(b, 10, 64).Some?
    ensures ParseHeader(fileInfo).Ok? ==>
              ParseHeader(fileInfo).value == FileHeader(ParseInt(a, 8, 32).value, ParseInt(b, 10, 64).value, name)
  {
    SplitFields(a, b, name);
  }

  /** Every control line the parser accepts has that shape. */
  lemma AcceptedHeaderShape(fileInfo: seq<byte>)
    requires |fileInfo| >= 1 && ParseHeader(fileInfo).Ok?
    ensures var parts := SplitN(TrimSpace(fileInfo[1..]), SPACE, 3);
            && |parts| == 3 && SPACE !in parts[0] && SPACE !in parts[1]
            && TrimSpace(fileInfo[1..]) == parts[0] + [SPACE] + (parts[1] + [SPACE] + parts[2])
            && ParseHeader(fileInfo).value.name == parts[2]
  {
    var body := TrimSpace(fileInfo[1..]);
    var parts := SplitN(body, SPACE, 3);
    SplitNJoin(body, SPACE, 3);
    assert parts[1..][1..] == [parts[2]];
    assert Join(parts[1..], SPACE) == parts[1] + [SPACE] + parts[2];
  }

  /** A body with fewer than two spaces has fewer than three fields: the line is refused. */
  lemma TooFewFields(fileInfo: seq<byte>)
    requires |fileInfo| >= 1 && |Split(TrimSpace(fileInfo[1..]), SPACE)| < 3
    ensures ParseHeader(fileInfo) == Err(BadFormat)
  {
    SplitNCount(TrimSpace(fileInfo[1..]), SPACE, 3);
  }

  /** A trimmed "C<oct> <dec> <name>" of digit strings parses to the values of its fields. */
  lemma ParseFields(oct: seq<byte>, dec: seq<byte>, name: seq<byte>, mode: int, size: int)
    requires AllDigits(oct, 8) && AllDigits(dec, 10) && oct != []
    requires ParseInt(oct, 8, 32) == Some(mode) && ParseInt(dec, 10, 64) == Some(size)
    requires name != [] && !IsSpace(name[|name| - 1])
    ensures ParseHeader([UPPER_C] + (oct + [SPACE] + (dec + [SPACE] + name)))
            == Ok(FileHeader(mode, size, name))
  {
    var x := oct + [SPACE] + (dec + [SPACE] + name);
    var line := [UPPER_C] + x;
    assert line[1..] == x;
    assert x[0] == oct[0] && IsDigit(oct[0], 8);
    assert x[|x| - 1] == name[|name| - 1];
    TrimSpaceNoop(x);
    NotAmongDigits(oct, 8, SPACE);
    NotAmongDigits(dec, 10, SPACE);
    ParseHeaderFields(line, oct, dec, name);
  }

  /** Any line "C<oct> <dec> <name>\n" trims and parses to its fields. */
  lemma LineRoundTrip(oct: seq<byte>, dec: seq<byte>, name: seq<byte>, mode: int, size: int)
    requires AllDigits(oct, 8) && AllDigits(dec, 10) && oct != []
    requires ParseInt(oct, 8, 32) == Some(mode) && ParseInt(dec, 10, 64) == Some(size)
    requires name != [] && !IsSpace(name[|name| - 1])
    ensures var line := [UPPER_C] + oct + [SPACE] + dec + [SPACE] + name + [LF];
            && TrimSpace(line) == line[..|line| - 1]
            && HasPrefix(TrimSpace(line), [UPPER_C])
            && ParseHeader(TrimSpace(line)) == Ok(FileHeader(mode, size, name))
  {
    var x := oct + [SPACE] + (dec + [SPACE] + name);
    var line := [UPPER_C] + oct + [SPACE] + dec + [SPACE] + name + [LF];
    assert line == [UPPER_C] + x + [LF];
    assert x[|x| - 1] == name[|name| - 1];
    TrimFormatted(x);
    var trimmed := TrimSpace(line);
    assert trimmed == [UPPER_C] + x;
    assert line[..|line| - 1] == trimmed;
    assert trimmed[..1] == [UPPER_C];
    ParseFields(oct, dec, name, mode, size);
  }

  /**
   * Round trip: the line the sender formats, once the receiver has trimmed
   * it, starts with 'C' and parses back to the same mode, size and name,
   * provided the name is not empty and has no white space at its end.
   */
  lemma HeaderRoundTrip(perm: nat, size: nat, name: seq<byte>)
    requires perm < 0x8000_0000 && size < 0x8000_0000_0000_0000
    requires name != [] && !IsSpace(name[|name| - 1])
    ensures var line := FormatHeader(perm, size, name);
            && TrimSpace(line) == line[..|line| - 1]
            && HasPrefix(TrimSpace(line), [UPPER_C])
            && ParseHeader(TrimSpace(line)) == Ok(FileHeader(perm, size, name))
  {
    OctalRoundTrip(perm);
    DecimalRoundTrip(size);
    LineRoundTrip(FormatOctal4(perm), FormatDecimal(size), name, perm, size);
  }
}

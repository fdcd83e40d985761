/**
 * Byte strings and the few operations of Go's `bytes` package that the
 * server relies on: prefix/suffix tests, substring search, splitting on a
 * single separator byte and trimming ASCII white space.
 */
module Bytes {

  type byte = b: int | 0 <= b < 256

  const NUL: byte := 0
  const TAB: byte := 9
  const LF: byte := 10
  const CR: byte := 13
  const SPACE: byte := 32
  const PLUS: byte := 43
  const MINUS: byte := 45
  const DOT: byte := 46
  const SLASH: byte := 47
  const DIGIT0: byte := 48
  const UPPER_C: byte := 67
  const UPPER_E: byte := 69

  function Min(a: int, b: int): int
  {
    if a <= b then a else b
  }

  /** bytes.HasPrefix */
  predicate HasPrefix(s: seq<byte>, prefix: seq<byte>)
  {
    |prefix| <= |s| && s[..|prefix|] == prefix
  }

  /** bytes.HasSuffix */
  predicate HasSuffix(s: seq<byte>, suffix: seq<byte>)
  {
    |suffix| <= |s| && s[|s| - |suffix|..] == suffix
  }

  /** A prefix of a prefix is a prefix. */
  lemma PrefixOfLonger(s: seq<byte>, p: seq<byte>, q: seq<byte>)
    requires HasPrefix(s, p + q)
    ensures HasPrefix(s, p)
  {
    assert s[..|p|] == (p + q)[..|p|];
  }

  /** Adjacent slices join into one. */
  lemma SliceJoin(s: seq<byte>, a: nat, b: nat, c: nat)
    requires a <= b <= c <= |s|
    ensures s[a..c] == s[a..b] + s[b..c]
  {
  }

  /** A slice grown by one byte. */
  lemma SliceSnoc(s: seq<byte>, a: nat, b: nat)
    requires a <= b < |s|
    ensures s[a..b + 1] == s[a..b] + [s[b]]
  {
  }

  /** A slice that ends in `z`: its last byte, and the slice before it. */
  lemma SliceLast(s: seq<byte>, a: nat, x: seq<byte>, z: byte)
    requires a + |x| + 1 <= |s| && s[a..a + |x| + 1] == x + [z]
    ensures s[a + |x|] == z && s[a..a + |x|] == x
  {
    assert s[a..a + |x|] == s[a..a + |x| + 1][..|x|];
  }

  /** A suffix of a tail of `s` is a suffix of `s`. */
  lemma SuffixOfTail(s: seq<byte>, k: nat, x: seq<byte>)
    requires k <= |s| && HasSuffix(s[k..], x)
    ensures HasSuffix(s, x)
  {
    assert s[|s| - |x|..] == s[k..][|s| - k - |x|..];
  }

  /** bytes.TrimPrefix: drops `prefix` when `s` starts with it. */
  function TrimPrefix(s: seq<byte>, prefix: seq<byte>): (r: seq<byte>)
    ensures HasPrefix(s, prefix) ==> s == prefix + r
    ensures !HasPrefix(s, prefix) ==> r == s
  {
    if HasPrefix(s, prefix) then s[|prefix|..] else s
  }

  /** bytes.Contains: `pattern` occurs at some offset of `s`. */
  predicate Contains(s: seq<byte>, pattern: seq<byte>)
    decreases |s|
  {
    HasPrefix(s, pattern) || (s != [] && Contains(s[1..], pattern))
  }

  /** Contains agrees with "occurs at some index". */
  lemma {:induction false} ContainsAt(s: seq<byte>, pattern: seq<byte>, i: nat)
    requires i + |pattern| <= |s| && s[i..i + |pattern|] == pattern
    ensures Contains(s, pattern)
    decreases i
  {
    if i > 0 {
      assert s[1..][i - 1..i - 1 + |pattern|] == s[i..i + |pattern|];
      ContainsAt(s[1..], pattern, i - 1);
    }
  }

  /** A pattern found in a prefix of `s` is found in `s`. */
  lemma {:induction false} ContainsPrefix(s: seq<byte>, k: nat, pattern: seq<byte>)
    requires k <= |s| && Contains(s[..k], pattern)
    ensures Contains(s, pattern)
    decreases k
  {
    if HasPrefix(s[..k], pattern) {
      assert s[..|pattern|] == s[..k][..|pattern|];
    } else {
      assert s[..k][1..] == s[1..][..k - 1];
      ContainsPrefix(s[1..], k - 1, pattern);
    }
  }

  /** `pattern` occurs in `s` at index `i`. */
  predicate OccursAt(s: seq<byte>, pattern: seq<byte>, i: nat)
  {
    i + |pattern| <= |s| && s[i..i + |pattern|] == pattern
  }

  /** Contains holds exactly when the pattern occurs at some index of `s`. */
  lemma {:induction false} ContainsOccurs(s: seq<byte>, pattern: seq<byte>)
    ensures Contains(s, pattern) <==> exists i :: OccursAt(s, pattern, i)
    decreases |s|
  {
    if Contains(s, pattern) {
      if HasPrefix(s, pattern) {
        assert OccursAt(s, pattern, 0);
      } else {
        ContainsOccurs(s[1..], pattern);
        var i: nat :| OccursAt(s[1..], pattern, i);
        assert s[i + 1..i + 1 + |pattern|] == s[1..][i..i + |pattern|];
        assert OccursAt(s, pattern, i + 1);
      }
    } else {
      forall i | OccursAt(s, pattern, i) ensures false {
        ContainsAt(s, pattern, i);
      }
    }
  }

  /** Index of the first `b` in `s`, or |s| when there is none. */
  function IndexOf(s: seq<byte>, b: byte): (i: nat)
    ensures i <= |s|
    ensures i < |s| ==> s[i] == b
    ensures forall j :: 0 <= j < i ==> s[j] != b
    decreases |s|
  {
    if s == [] then 0
    else if s[0] == b then 0
    else 1 + IndexOf(s[1..], b)
  }

  /**
   * bytes.Split with a one-byte separator: every piece between separators,
   * so a string with k separators gives k + 1 pieces (the empty string gives
   * one empty piece).
   */
  function Split(s: seq<byte>, sep: byte): (parts: seq<seq<byte>>)
    ensures |parts| >= 1
    ensures forall i :: 0 <= i < |parts| ==> sep !in parts[i]
    decreases |s|
  {
    if s == [] then [[]]
    else if s[0] == sep then [[]] + Split(s[1..], sep)
    else
      var rest := Split(s[1..], sep);
      [[s[0]] + rest[0]] + rest[1..]
  }

  /** strings.Join with a one-byte separator (the inverse of Split). */
  function Join(parts: seq<seq<byte>>, sep: byte): (s: seq<byte>)
    decreases |parts|
  {
    if |parts| == 0 then []
    else if |parts| == 1 then parts[0]
    else parts[0] + [sep] + Join(parts[1..], sep)
  }

  /** A piece without separators splits to itself. */
  lemma {:induction false} SplitNoSep(a: seq<byte>, sep: byte)
    requires sep !in a
    ensures Split(a, sep) == [a]
    decreases |a|
  {
    if a != [] {
      SplitNoSep(a[1..], sep);
      assert [a[0]] + a[1..] == a;
    }
  }

  /** Split of a sequence with a known first byte, one step unfolded. */
  lemma SplitCons(c: byte, t: seq<byte>, sep: byte)
    ensures Split([c] + t, sep)
            == if c == sep then [[]] + Split(t, sep) else [[c] + Split(t, sep)[0]] + Split(t, sep)[1..]
  {
    assert ([c] + t)[0] == c && ([c] + t)[1..] == t;
  }

  /** Splitting distributes over a separator: the pieces of both sides, in order. */
  lemma {:induction false} SplitAppend(a: seq<byte>, b: seq<byte>, sep: byte)
    ensures Split(a + [sep] + b, sep) == Split(a, sep) + Split(b, sep)
    decreases |a|
  {
    if a == [] {
      SplitCons(sep, b, sep);
      assert a + [sep] + b == [sep] + b;
    } else {
      SplitAppend(a[1..], b, sep);
      SplitAppendStep(a, b, sep);
    }
  }

  /** The inductive step of SplitAppend: one more byte in front of the left side. */
  lemma SplitAppendStep(a: seq<byte>, b: seq<byte>, sep: byte)
    requires a != []
    requires Split(a[1..] + [sep] + b, sep) == Split(a[1..], sep) + Split(b, sep)
    ensures Split(a + [sep] + b, sep) == Split(a, sep) + Split(b, sep)
  {
    var c, t := a[0], a[1..] + [sep] + b;
    var rest, tail := Split(a[1..], sep), Split(b, sep);
    HeadAppend(a, sep, b);
    SplitCons(c, t, sep);
    SplitCons(c, a[1..], sep);
    if c == sep {
      calc {
        Split(a + [sep] + b, sep);
        [[]] + (rest + tail);
        { ConcatAssoc([[]], rest, tail); }
        ([[]] + rest) + tail;
      }
    } else {
      var first := [c] + rest[0];
      calc {
        Split(a + [sep] + b, sep);
        [[c] + (rest + tail)[0]] + (rest + tail)[1..];
        { ConsConcat(first, rest, tail); }
        ([first] + rest[1..]) + tail;
      }
    }
  }

  /** Concatenation is associative. */
  lemma ConcatAssoc<T>(x: seq<T>, y: seq<T>, z: seq<T>)
    ensures x + (y + z) == (x + y) + z
  {
  }

  /** A nonempty left side, with its first element taken out. */
  lemma HeadAppend<T>(a: seq<T>, m: T, b: seq<T>)
    requires a != []
    ensures a + [m] + b == [a[0]] + (a[1..] + [m] + b)
    ensures a == [a[0]] + a[1..]
  {
  }

  /** Replacing the first element of `rest` and appending `tail`, in either order. */
  lemma ConsConcat<T>(x: T, rest: seq<T>, tail: seq<T>)
    requires |rest| >= 1
    ensures [x] + (rest + tail)[1..] == ([x] + rest[1..]) + tail
    ensures (rest + tail)[0] == rest[0]
  {
    assert (rest + tail)[1..] == rest[1..] + tail;
  }

  /** Join then Split gives back pieces that contain no separator. */
  lemma {:induction false} SplitJoin(parts: seq<seq<byte>>, sep: byte)
    requires |parts| >= 1
    requires forall i :: 0 <= i < |parts| ==> sep !in parts[i]
    ensures Split(Join(parts, sep), sep) == parts
    decreases |parts|
  {
    if |parts| == 1 {
      SplitNoSep(parts[0], sep);
    } else {
      SplitJoin(parts[1..], sep);
      SplitAppend(parts[0], Join(parts[1..], sep), sep);
      SplitNoSep(parts[0], sep);
      assert [parts[0]] + parts[1..] == parts;
    }
  }

  /** Join of a concatenation puts one separator between the two joins. */
  lemma {:induction false} JoinAppend(a: seq<seq<byte>>, b: seq<seq<byte>>, sep: byte)
    requires |a| >= 1 && |b| >= 1
    ensures Join(a + b, sep) == Join(a, sep) + [sep] + Join(b, sep)
    decreases |a|
  {
    if |a| == 1 {
      assert (a + b)[1..] == b;
    } else {
      assert (a + b)[1..] == a[1..] + b;
      JoinAppend(a[1..], b, sep);
    }
  }

  /**
   * bytes.SplitN for n >= 1: at most n pieces, the last one the unsplit
   * remainder.
   */
  function SplitN(s: seq<byte>, sep: byte, n: nat): (parts: seq<seq<byte>>)
    requires n >= 1
    ensures 1 <= |parts| <= n
    decreases n
  {
    var i := IndexOf(s, sep);
    if n == 1 || i == |s| then [s]
    else [s[..i]] + SplitN(s[i + 1..], sep, n - 1)
  }

  /** Split at the first separator: the bytes before it, then the pieces of the rest. */
  lemma SplitAtFirst(s: seq<byte>, sep: byte)
    requires IndexOf(s, sep) < |s|
    ensures var i := IndexOf(s, sep);
            Split(s, sep) == [s[..i]] + Split(s[i + 1..], sep)
  {
    var i := IndexOf(s, sep);
    assert s == s[..i] + [sep] + s[i + 1..];
    SplitNoSep(s[..i], sep);
    SplitAppend(s[..i], s[i + 1..], sep);
  }

  /** SplitN gives as many pieces as Split, but at most n. */
  lemma {:induction false} SplitNCount(s: seq<byte>, sep: byte, n: nat)
    requires n >= 1
    ensures |SplitN(s, sep, n)| == Min(n, |Split(s, sep)|)
    decreases n
  {
    var i := IndexOf(s, sep);
    if n > 1 && i < |s| {
      SplitNCount(s[i + 1..], sep, n - 1);
      SplitAtFirst(s, sep);
    } else if i == |s| {
      SplitNoSep(s, sep);
    }
  }

  /**
   * SplitN loses nothing: joining its pieces with the separator gives back
   * the input, and only the last piece can hold the separator.
   */
  lemma {:induction false} SplitNJoin(s: seq<byte>, sep: byte, n: nat)
    requires n >= 1
    ensures Join(SplitN(s, sep, n), sep) == s
    ensures forall k :: 0 <= k < |SplitN(s, sep, n)| - 1 ==> sep !in SplitN(s, sep, n)[k]
    decreases n
  {
    var i := IndexOf(s, sep);
    if n > 1 && i < |s| {
      var rest := SplitN(s[i + 1..], sep, n - 1);
      SplitNJoin(s[i + 1..], sep, n - 1);
      var parts := [s[..i]] + rest;
      assert SplitN(s, sep, n) == parts;
      ConsParts(s[..i], rest);
      SliceAround(s, i);
      assert sep !in s[..i];
    }
  }

  /** The parts of a sequence with one element in front. */
  lemma ConsParts<T>(x: T, rest: seq<T>)
    ensures |[x] + rest| == |rest| + 1 && ([x] + rest)[0] == x && ([x] + rest)[1..] == rest
    ensures forall k :: 1 <= k < |rest| + 1 ==> ([x] + rest)[k] == rest[k - 1]
  {
  }

  /** A sequence is the slice before `i`, its element at `i` and the slice after. */
  lemma SliceAround<T>(s: seq<T>, i: nat)
    requires i < |s|
    ensures s == s[..i] + [s[i]] + s[i + 1..]
  {
  }

  /** The white-space bytes bytes.TrimSpace removes: \t \n \v \f \r and space. */
  predicate IsSpace(b: byte)
  {
    b == SPACE || TAB <= b <= CR
  }

  /** Drops the white space at the front. */
  function TrimLeft(s: seq<byte>): (r: seq<byte>)
    ensures |r| <= |s| && r == s[|s| - |r|..]
    ensures r == [] || !IsSpace(r[0])
    ensures forall k :: 0 <= k < |s| - |r| ==> IsSpace(s[k])
    decreases |s|
  {
    if s != [] && IsSpace(s[0]) then TrimLeft(s[1..]) else s
  }

  /** Drops the white space at the back. */
  function TrimRight(s: seq<byte>): (r: seq<byte>)
    ensures |r| <= |s| && r == s[..|r|]
    ensures r == [] || !IsSpace(r[|r| - 1])
    ensures forall k :: |r| <= k < |s| ==> IsSpace(s[k])
    decreases |s|
  {
    if s != [] && IsSpace(s[|s| - 1]) then TrimRight(s[..|s| - 1]) else s
  }

  /**
   * bytes.TrimSpace restricted to ASCII white space: the slice of `s` left
   * once all white space is cut from both ends.
   */
  function TrimSpace(s: seq<byte>): (r: seq<byte>)
    ensures r == [] || (!IsSpace(r[0]) && !IsSpace(r[|r| - 1]))
  {
    TrimRight(TrimLeft(s))
  }

  /**
   * TrimSpace keeps a slice of its input with nothing but white space
   * around it (and, by its contract, none at either end of the slice).
   */
  lemma TrimSpaceAround(s: seq<byte>)
    ensures exists i :: SpaceAround(s, TrimSpace(s), i)
  {
    TrimBoth(s, TrimLeft(s), TrimSpace(s));
  }

  /** Trimming the front and then the back leaves white space only around the result. */
  lemma TrimBoth(s: seq<byte>, l: seq<byte>, r: seq<byte>)
    requires |l| <= |s| && l == s[|s| - |l|..] && forall k :: 0 <= k < |s| - |l| ==> IsSpace(s[k])
    requires |r| <= |l| && r == l[..|r|] && forall k :: |r| <= k < |l| ==> IsSpace(l[k])
    ensures SpaceAround(s, r, |s| - |l|)
  {
    var i := |s| - |l|;
    assert r == s[i..i + |r|];
    forall k | i + |r| <= k < |s|
      ensures IsSpace(s[k])
    {
      assert s[k] == l[k - i];
    }
  }

  /** `r` is the slice of `s` at `i` and everything around it is white space. */
  predicate SpaceAround(s: seq<byte>, r: seq<byte>, i: nat)
  {
    && i + |r| <= |s| && r == s[i..i + |r|]
    && (forall k :: 0 <= k < i ==> IsSpace(s[k]))
    && (forall k :: i + |r| <= k < |s| ==> IsSpace(s[k]))
  }

  /** Bytes with no white space at either end are left alone by TrimSpace. */
  lemma TrimSpaceNoop(s: seq<byte>)
    requires s != [] && !IsSpace(s[0]) && !IsSpace(s[|s| - 1])
    ensures TrimSpace(s) == s
  {
  }
}

/** The operations of Rust's `str` that the chat's framing is built from,
 *  over `string` (a sequence of Unicode scalar values). */
module Text {

  /** The padding character of the zero-initialised read buffers. */
  const Nul: char := '\0'

  /** `char::is_whitespace`: the Unicode White_Space property, which is what
   *  `str::trim` strips. NUL is not whitespace. */
  predicate IsWhitespace(c: char)
  {
    ('\t' <= c <= '\r') || c == ' ' || c == '\U{0085}' || c == '\U{00A0}' || c == '\U{1680}'
    || ('\U{2000}' <= c <= '\U{200A}') || c == '\U{2028}' || c == '\U{2029}'
    || c == '\U{202F}' || c == '\U{205F}' || c == '\U{3000}'
  }

  /** `n` padding characters: the untouched tail of a read buffer. */
  function Zeros(n: nat): (z: string)
    ensures |z| == n && forall i :: 0 <= i < n ==> z[i] == Nul
  {
    seq(n, _ => Nul)
  }

  /** `str::trim_start`: the longest suffix that does not start with whitespace. */
  function TrimStart(s: string): (r: string)
    ensures |r| <= |s| && r == s[|s| - |r|..]
    ensures forall i :: 0 <= i < |s| - |r| ==> IsWhitespace(s[i])
    ensures r == [] || !IsWhitespace(r[0])
  {
    if s != [] && IsWhitespace(s[0]) then
      var r := TrimStart(s[1..]);
      assert s[1..][|s| - 1 - |r|..] == s[|s| - |r|..];
      r
    else s
  }

  /** `str::trim_end`: the longest prefix that does not end with whitespace. */
  function TrimEnd(s: string): (r: string)
    ensures |r| <= |s| && r == s[..|r|]
    ensures forall i :: |r| <= i < |s| ==> IsWhitespace(s[i])
    ensures r == [] || !IsWhitespace(r[|r| - 1])
  {
    if s != [] && IsWhitespace(s[|s| - 1]) then
      var r := TrimEnd(s[..|s| - 1]);
      assert s[..|s| - 1][..|r|] == s[..|r|];
      r
    else s
  }

  /** `str::trim`: whitespace removed from both ends. */
  function Trim(s: string): (r: string)
    ensures |r| <= |s|
    ensures r == [] || (!IsWhitespace(r[0]) && !IsWhitespace(r[|r| - 1]))
  {
    TrimEnd(TrimStart(s))
  }

  /** A string whose ends are not whitespace is its own trim; in particular
   *  trimming is idempotent. */
  lemma TrimClean(s: string)
    requires s == [] || (!IsWhitespace(s[0]) && !IsWhitespace(s[|s| - 1]))
    ensures Trim(s) == s
  {
  }

  lemma TrimIdempotent(s: string)
    ensures Trim(Trim(s)) == Trim(s)
  {
    TrimClean(Trim(s));
  }

  /** Padding after the text stops `trim` at the end: whitespace in front of
   *  the padding survives, only leading whitespace goes. */
  lemma {:induction false} TrimPadded(d: string, n: nat)
    requires n > 0
    ensures Trim(d + Zeros(n)) == TrimStart(d) + Zeros(n)
  {
    TrimStartPadded(d, n);
    var x := TrimStart(d) + Zeros(n);
    assert x[|x| - 1] == Nul;
    TrimEndKeeps(x);
  }

  /** Trimming stops at a last character that is not whitespace. */
  lemma TrimEndKeeps(s: string)
    requires s != [] && !IsWhitespace(s[|s| - 1])
    ensures TrimEnd(s) == s
  {
  }

  lemma {:induction false} TrimStartPadded(d: string, n: nat)
    requires n > 0
    ensures TrimStart(d + Zeros(n)) == TrimStart(d) + Zeros(n)
  {
    if d == [] {
      assert d + Zeros(n) == Zeros(n);
    } else if IsWhitespace(d[0]) {
      assert (d + Zeros(n))[1..] == d[1..] + Zeros(n);
      TrimStartPadded(d[1..], n);
    }
  }

  /** `s.replace(c, "")`: `s` with every `c` deleted. */
  function Remove(s: string, c: char): (r: string)
    ensures c !in r && |r| <= |s|
    ensures c !in s ==> r == s
  {
    if s == [] then [] else (if s[0] == c then [] else [s[0]]) + Remove(s[1..], c)
  }

  /** Deletion works piece by piece: it keeps every other character in order. */
  lemma {:induction false} RemoveConcat(a: string, b: string, c: char)
    ensures Remove(a + b, c) == Remove(a, c) + Remove(b, c)
  {
    if a != [] {
      assert (a + b)[1..] == a[1..] + b;
      RemoveConcat(a[1..], b, c);
    } else {
      assert a + b == b;
    }
  }

  lemma {:induction false} RemoveZeros(n: nat)
    ensures Remove(Zeros(n), Nul) == []
  {
    if n > 0 {
      assert Zeros(n)[1..] == Zeros(n - 1);
      RemoveZeros(n - 1);
    }
  }

  /** Deleting NUL from a NUL-free text followed by padding leaves the text. */
  lemma StripPadding(t: string, n: nat)
    requires Nul !in t
    ensures Remove(t + Zeros(n), Nul) == t
  {
    RemoveConcat(t, Zeros(n), Nul);
    RemoveZeros(n);
    assert t + [] == t;
  }

  /** A NUL-free text with no whitespace at either end comes back unchanged
   *  from trimming and stripping the padding after it, if there is any. */
  lemma CleanPadded(e: string, n: nat)
    requires Nul !in e
    requires e == [] || (!IsWhitespace(e[0]) && !IsWhitespace(e[|e| - 1]))
    ensures Remove(Trim(e + Zeros(n)), Nul) == e
  {
    if n > 0 {
      TrimPadded(e, n);
      assert TrimStart(e) == e;
      StripPadding(e, n);
    } else {
      assert e + Zeros(n) == e;
      TrimClean(e);
    }
  }

  /** `s.replace(a, b)` for single characters: every `a` becomes `b`, nothing else moves. */
  function Replace(s: string, a: char, b: char): (r: string)
    ensures |r| == |s|
    ensures forall i :: 0 <= i < |s| ==> r[i] == if s[i] == a then b else s[i]
    ensures a !in s ==> r == s
  {
    if s == [] then [] else [if s[0] == a then b else s[0]] + Replace(s[1..], a, b)
  }

  /** Position of the first `c` in `s`, or `|s|` when there is none. */
  function IndexOf(s: string, c: char): (k: nat)
    ensures k <= |s| && c !in s[..k]
    ensures k < |s| ==> s[k] == c
  {
    if s == [] || s[0] == c then 0 else 1 + IndexOf(s[1..], c)
  }

  /** The first-occurrence property determines the index. */
  lemma IndexOfIs(s: string, c: char, k: nat)
    requires k <= |s| && c !in s[..k] && (k < |s| ==> s[k] == c)
    ensures IndexOf(s, c) == k
  {
  }

  /** `s.split(sep)`: the maximal runs between separators, always at least one
   *  (possibly empty) piece. */
  function Split(s: string, sep: char): (parts: seq<string>)
    ensures |parts| >= 1
    ensures forall i :: 0 <= i < |parts| ==> sep !in parts[i]
    decreases |s|
  {
    var k := IndexOf(s, sep);
    if k == |s| then [s] else [s[..k]] + Split(s[k + 1..], sep)
  }

  /** A character absent from a string is absent from each of its pieces. */
  lemma {:induction false} SplitAvoids(s: string, sep: char, c: char)
    requires c !in s
    ensures forall i :: 0 <= i < |Split(s, sep)| ==> c !in Split(s, sep)[i]
    decreases |s|
  {
    var k := IndexOf(s, sep);
    if k < |s| {
      assert s == s[..k] + [sep] + s[k + 1..];
      SplitAvoids(s[k + 1..], sep, c);
    }
  }

  /** `parts.join(sep)`. */
  function Join(parts: seq<string>, sep: string): string
  {
    if |parts| == 0 then []
    else if |parts| == 1 then parts[0]
    else parts[0] + sep + Join(parts[1..], sep)
  }

  /** Splitting a string at a separator that comes after a separator-free head. */
  lemma SplitAt(a: string, sep: char, b: string)
    requires sep !in a
    ensures Split(a + [sep] + b, sep) == [a] + Split(b, sep)
  {
    var s := a + [sep] + b;
    assert s[..|a|] == a;
    IndexOfIs(s, sep, |a|);
    assert s[|a| + 1..] == b;
  }

  /** Joining the pieces of a split with the same separator gives back the string. */
  lemma {:induction false} SplitJoin(s: string, sep: char)
    ensures Join(Split(s, sep), [sep]) == s
    decreases |s|
  {
    var k := IndexOf(s, sep);
    if k < |s| {
      var rest := Split(s[k + 1..], sep);
      assert Split(s, sep) == [s[..k]] + rest;
      assert ([s[..k]] + rest)[1..] == rest;
      SplitJoin(s[k + 1..], sep);
      assert s == s[..k] + [sep] + s[k + 1..];
    }
  }

  /** And splitting a join of separator-free pieces gives back the pieces. */
  lemma {:induction false} JoinSplit(parts: seq<string>, sep: char)
    requires |parts| >= 1
    requires forall i :: 0 <= i < |parts| ==> sep !in parts[i]
    ensures Split(Join(parts, [sep]), sep) == parts
  {
    if |parts| > 1 {
      JoinSplit(parts[1..], sep);
      SplitAt(parts[0], sep, Join(parts[1..], [sep]));
    } else {
      IndexOfIs(parts[0], sep, |parts[0]|);
    }
  }

  /** The head of a split is the text before the first separator; when there is
   *  a separator, the rest joins back to exactly the text after it. */
  lemma SplitFirst(s: string, sep: char)
    ensures Split(s, sep)[0] == s[..IndexOf(s, sep)]
    ensures |Split(s, sep)| > 1 <==> IndexOf(s, sep) < |s|
    ensures IndexOf(s, sep) < |s| ==> Join(Split(s, sep)[1..], [sep]) == s[IndexOf(s, sep) + 1..]
  {
    var k := IndexOf(s, sep);
    if k < |s| {
      var rest := Split(s[k + 1..], sep);
      assert ([s[..k]] + rest)[1..] == rest;
      SplitJoin(s[k + 1..], sep);
    } else {
      assert s[..k] == s;
    }
  }

  /** The pieces that are not empty, in order. */
  function NonEmpty(parts: seq<string>): (r: seq<string>)
    ensures |r| <= |parts|
    ensures forall i :: 0 <= i < |r| ==> r[i] != [] && r[i] in parts
    ensures (forall i :: 0 <= i < |parts| ==> parts[i] != []) ==> r == parts
  {
    if parts == [] then []
    else (if parts[0] == [] then [] else [parts[0]]) + NonEmpty(parts[1..])
  }

  lemma {:induction false} NonEmptyConcat(a: seq<string>, b: seq<string>)
    ensures NonEmpty(a + b) == NonEmpty(a) + NonEmpty(b)
  {
    if a != [] {
      assert (a + b)[1..] == a[1..] + b;
      NonEmptyConcat(a[1..], b);
    } else {
      assert a + b == b;
    }
  }

  lemma NonEmptySnoc(parts: seq<string>, k: nat)
    requires k < |parts|
    ensures NonEmpty(parts[..k + 1]) == NonEmpty(parts[..k]) + if parts[k] == [] then [] else [parts[k]]
  {
    assert parts[..k + 1] == parts[..k] + [parts[k]];
    NonEmptyConcat(parts[..k], [parts[k]]);
    assert [parts[k]][1..] == [];
  }

  /** The frames carried by `s`: the non-empty pieces of `s.split(sep)`. */
  function Pieces(s: string, sep: char): (frames: seq<string>)
    ensures forall i :: 0 <= i < |frames| ==> frames[i] != [] && sep !in frames[i]
  {
    NonEmpty(Split(s, sep))
  }

  lemma PiecesAvoid(s: string, sep: char, c: char)
    requires c !in s
    ensures forall i :: 0 <= i < |Pieces(s, sep)| ==> c !in Pieces(s, sep)[i]
  {
    SplitAvoids(s, sep, c);
  }

  /** Each frame followed by the separator, concatenated: what a writer puts on the wire. */
  function Encode(frames: seq<string>, sep: char): (s: string)
    ensures |frames| > 0 ==> |s| > |frames[0]| && s[..|frames[0]|] == frames[0] && s[|s| - 1] == sep
  {
    if frames == [] then [] else frames[0] + [sep] + Encode(frames[1..], sep)
  }

  /** Framing round trip: non-empty, separator-free frames are recovered from their encoding. */
  lemma {:induction false} PiecesEncode(frames: seq<string>, sep: char)
    requires forall i :: 0 <= i < |frames| ==> frames[i] != [] && sep !in frames[i]
    ensures Pieces(Encode(frames, sep), sep) == frames
  {
    if frames == [] {
      assert Split([], sep) == [[]];
    } else {
      var rest := Encode(frames[1..], sep);
      calc {
        Pieces(Encode(frames, sep), sep);
        NonEmpty(Split(frames[0] + [sep] + rest, sep));
        { SplitAt(frames[0], sep, rest); }
        NonEmpty([frames[0]] + Split(rest, sep));
        { NonEmptyConcat([frames[0]], Split(rest, sep)); }
        NonEmpty([frames[0]]) + Pieces(rest, sep);
        { PiecesEncode(frames[1..], sep); }
        [frames[0]] + frames[1..];
      }
    }
  }

  /** Bytes one character takes in UTF-8. */
  function Utf8Width(c: char): (n: nat)
    ensures 1 <= n <= 4
    ensures n == 1 <==> c < '\U{0080}'
  {
    if c < '\U{0080}' then 1 else if c < '\U{0800}' then 2 else if c < '\U{10000}' then 3 else 4
  }

  /** `str::len`: the length of the UTF-8 encoding, in bytes. */
  function ByteLen(s: string): (n: nat)
    ensures |s| <= n <= 4 * |s|
    ensures n == 0 <==> s == []
    ensures (forall i :: 0 <= i < |s| ==> s[i] < '\U{0080}') ==> n == |s|
  {
    if s == [] then 0 else Utf8Width(s[0]) + ByteLen(s[1..])
  }

  lemma {:induction false} ByteLenConcat(a: string, b: string)
    ensures ByteLen(a + b) == ByteLen(a) + ByteLen(b)
  {
    if a != [] {
      assert (a + b)[1..] == a[1..] + b;
      ByteLenConcat(a[1..], b);
    } else {
      assert a + b == b;
    }
  }
}

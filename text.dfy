/** The JavaScript string operations the arc service relies on:
    `String.prototype.trim`, `split` on a one-character separator,
    `Array.prototype.join` and the `split('/').pop()` idiom that derives an
    arc's display name from its location. Strings are sequences of
    characters; no Unicode normalisation is involved. */
module Text {

  /** The characters `trim` removes: ECMAScript WhiteSpace (tab, vertical tab,
      form feed, byte order mark and every space separator) and
      LineTerminator (line feed, carriage return, U+2028, U+2029). */
  predicate IsSpace(c: char) {
    || c == '\t' || c == '\U{B}' || c == '\U{C}' || c == ' ' || c == '\U{A0}'
    || c == '\U{1680}' || ('\U{2000}' <= c <= '\U{200A}') || c == '\U{202F}'
    || c == '\U{205F}' || c == '\U{3000}' || c == '\U{FEFF}'
    || c == '\n' || c == '\r' || c == '\U{2028}' || c == '\U{2029}'
  }

  /** Leading white space removed. */
  function TrimStart(s: string): (r: string)
    ensures |r| <= |s| && r == s[|s| - |r|..]
    ensures forall k :: 0 <= k < |s| - |r| ==> IsSpace(s[k])
    ensures r != [] ==> !IsSpace(r[0])
  {
    if s != [] && IsSpace(s[0]) then TrimStart(s[1..]) else s
  }

  /** Trailing white space removed. */
  function TrimEnd(s: string): (r: string)
    ensures |r| <= |s| && r == s[..|r|]
    ensures forall k :: |r| <= k < |s| ==> IsSpace(s[k])
    ensures r != [] ==> !IsSpace(r[|r| - 1])
  {
    if s != [] && IsSpace(s[|s| - 1]) then TrimEnd(s[..|s| - 1]) else s
  }

  /** `s.trim()`: the longest infix of `s` that neither starts nor ends with
      white space; everything cut off on either side is white space. */
  function Trim(s: string): (r: string)
    ensures r != [] ==> !IsSpace(r[0]) && !IsSpace(r[|r| - 1])
    ensures r == [] <==> forall k :: 0 <= k < |s| ==> IsSpace(s[k])
    ensures r <= TrimStart(s)
    ensures forall k :: |r| <= k < |TrimStart(s)| ==> IsSpace(TrimStart(s)[k])
  {
    TrimAllSpace(s);
    TrimEnd(TrimStart(s))
  }

  /** Both ends trimmed leave nothing exactly when every character is white
      space. */
  lemma TrimAllSpace(s: string)
    ensures TrimEnd(TrimStart(s)) == [] <==> forall k :: 0 <= k < |s| ==> IsSpace(s[k])
  {
    var t := TrimStart(s);
    var i := |s| - |t|;
    if t != [] {
      assert s[i] == t[0];
    }
  }

  lemma TrimIdempotent(s: string)
    ensures Trim(Trim(s)) == Trim(s)
  {
    TrimOfTrimmed(Trim(s));
  }

  /** A string with no white space at either end is its own trim. */
  lemma TrimOfTrimmed(s: string)
    requires s != [] ==> !IsSpace(s[0]) && !IsSpace(s[|s| - 1])
    ensures Trim(s) == s
  {
  }

  /** `s.split(sep)`: the maximal separator-free pieces, left to right; an
      empty string gives one empty piece. */
  function Split(s: string, sep: char): (r: seq<string>)
    ensures |r| >= 1
    ensures forall k :: 0 <= k < |r| ==> sep !in r[k]
  {
    if s == [] then [[]]
    else
      var rest := Split(s[1..], sep);
      if s[0] == sep then [[]] + rest
      else [[s[0]] + rest[0]] + rest[1..]
  }

  /** `pieces.join(sep)` for a one-character separator. */
  function Join(pieces: seq<string>, sep: char): string {
    if pieces == [] then []
    else if |pieces| == 1 then pieces[0]
    else pieces[0] + [sep] + Join(pieces[1..], sep)
  }

  /** Splitting loses nothing: joining the pieces restores the string. */
  lemma {:induction false} JoinSplit(s: string, sep: char)
    ensures Join(Split(s, sep), sep) == s
  {
    if s != [] {
      var rest := Split(s[1..], sep);
      JoinSplit(s[1..], sep);
      if s[0] == sep {
        assert Split(s, sep)[1..] == rest;
        assert s == [sep] + s[1..];
      } else {
        var r := Split(s, sep);
        assert r[1..] == rest[1..];
        if |rest| == 1 {
          assert Join(r, sep) == [s[0]] + rest[0];
        } else {
          assert Join(rest, sep) == rest[0] + [sep] + Join(rest[1..], sep);
          assert Join(r, sep) == [s[0]] + rest[0] + [sep] + Join(rest[1..], sep);
        }
        assert s == [s[0]] + s[1..];
      }
    }
  }

  /** Splitting a join of separator-free pieces gives the pieces back. */
  lemma {:induction false} SplitJoin(pieces: seq<string>, sep: char)
    requires |pieces| >= 1
    requires forall k :: 0 <= k < |pieces| ==> sep !in pieces[k]
    ensures Split(Join(pieces, sep), sep) == pieces
  {
    if |pieces| == 1 {
      SplitPiece(pieces[0], sep, []);
      assert Split([], sep) == [[]];
      assert pieces[0] + [] == pieces[0];
      assert Join(pieces, sep) == pieces[0] + [];
    } else {
      var j := Join(pieces[1..], sep);
      SplitJoin(pieces[1..], sep);
      SplitPiece(pieces[0], sep, [sep] + j);
      assert ([sep] + j)[1..] == j;
      assert Split([sep] + j, sep) == [[]] + pieces[1..];
      assert pieces[0] + [] == pieces[0];
      assert Join(pieces, sep) == pieces[0] + ([sep] + j);
    }
  }

  /** A separator-free prefix becomes the head of the first piece. */
  lemma {:induction false} SplitPiece(p: string, sep: char, tail: string)
    requires sep !in p
    ensures Split(p + tail, sep) == [p + Split(tail, sep)[0]] + Split(tail, sep)[1..]
  {
    if p != [] {
      var r := Split(tail, sep);
      SplitPiece(p[1..], sep, tail);
      assert p[0] in p;
      assert (p + tail)[0] == p[0] != sep;
      assert (p + tail)[1..] == p[1..] + tail;
      assert [p[0]] + (p[1..] + r[0]) == p + r[0];
    } else {
      var r := Split(tail, sep);
      assert p + tail == tail;
      assert p + r[0] == r[0];
      assert [r[0]] + r[1..] == r;
    }
  }

  /** The last piece of `s.split('/')`, as `pop()` returns it. */
  function LastSegment(s: string): string {
    var pieces := Split(s, '/');
    pieces[|pieces| - 1]
  }

  /** The name is the part of the path after its last '/': it contains no
      '/', it ends the path, and it is either the whole path or preceded by
      a '/'. */
  lemma {:induction false} LastSegmentIsSuffix(s: string)
    ensures '/' !in LastSegment(s)
    ensures |LastSegment(s)| <= |s| && LastSegment(s) == s[|s| - |LastSegment(s)|..]
    ensures |LastSegment(s)| < |s| ==> s[|s| - |LastSegment(s)| - 1] == '/'
  {
    if s != [] {
      var tail := s[1..];
      LastSegmentIsSuffix(tail);
      var rest := Split(tail, '/');
      var n := LastSegment(tail);
      if |n| == |tail| {
        assert n == tail;
        SplitPiece(tail, '/', []);
        assert Split([], '/') == [[]];
        assert tail + [] == tail;
        assert rest == [tail];
      }
      if s[0] != '/' && |rest| == 1 {
        JoinSplit(tail, '/');
        assert LastSegment(s) == [s[0]] + tail == s;
      } else {
        assert LastSegment(s) == n;
        assert s[|s| - |n|..] == tail[|tail| - |n|..];
        if |n| < |tail| {
          assert s[|s| - |n| - 1] == tail[|tail| - |n| - 1];
        }
      }
    }
  }

  /** The name of `dir + "/" + child` is `child` when the child name has no
      '/', as with every entry a directory listing returns. */
  lemma LastSegmentOfChild(dir: string, child: string)
    requires '/' !in child
    ensures LastSegment(dir + "/" + child) == child
  {
    var s := dir + "/" + child;
    LastSegmentIsSuffix(s);
    var n := LastSegment(s);
    assert s[|dir|] == '/';
    assert forall k :: 0 <= k < |child| ==> s[|dir| + 1 + k] == child[k];
    assert s[|s| - |n|..] == child;
  }
}

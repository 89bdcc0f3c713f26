/**
 * The java.lang.String operations the grade programs are built on: split on a one-character
 * pattern, trim and join. Strings are sequences of characters; all three are pure.
 */
module JavaText {

  /** The characters String.trim strips: every code point at or below U+0020. */
  predicate IsTrimSpace(c: char) {
    c <= ' '
  }

  /** Neither end of s holds a character that trim would strip. */
  predicate IsTrimmed(s: string) {
    s == [] || (!IsTrimSpace(s[0]) && !IsTrimSpace(s[|s| - 1]))
  }

  /** Drops the leading trim-space characters. */
  function TrimStart(s: string): (r: string)
    ensures |r| <= |s| && r == s[|s| - |r|..]
    ensures forall i :: 0 <= i < |s| - |r| ==> IsTrimSpace(s[i])
    ensures r != [] ==> !IsTrimSpace(r[0])
  {
    if s != [] && IsTrimSpace(s[0]) then TrimStart(s[1..]) else s
  }

  /** Drops the trailing trim-space characters. */
  function TrimEnd(s: string): (r: string)
    ensures |r| <= |s| && r == s[..|r|]
    ensures forall i :: |r| <= i < |s| ==> IsTrimSpace(s[i])
    ensures r != [] ==> !IsTrimSpace(r[|r| - 1])
  {
    if s != [] && IsTrimSpace(s[|s| - 1]) then TrimEnd(s[..|s| - 1]) else s
  }

  /**
   * String.trim: the longest infix of s that neither starts nor ends with a character at or
   * below U+0020 (the empty string when s holds nothing else).
   */
  function Trim(s: string): (r: string)
    ensures IsTrimmed(r)
    ensures |r| <= |s|
    ensures forall c :: c in r ==> c in s
    ensures IsTrimmed(s) ==> r == s
  {
    TrimChars(s);
    TrimEnd(TrimStart(s))
  }

  /**
   * What String.trim removes: Trim(s) is the slice s[i..j] with only trim-space characters before
   * i and from j on. As Trim(s) is itself trimmed, this pins it down: s with those characters
   * stripped from both ends.
   */
  lemma TrimStrips(s: string)
    ensures exists i, j :: 0 <= i <= j <= |s| && Trim(s) == s[i..j] &&
              (forall k :: 0 <= k < i ==> IsTrimSpace(s[k])) && (forall k :: j <= k < |s| ==> IsTrimSpace(s[k]))
  {
    var t := TrimStart(s);
    var i := |s| - |t|;
    var j := i + |Trim(s)|;
    TrimSlice(s);
    TrimTail(s);
    assert s[i..][..j - i] == s[i..j];
  }

  /** The trimmed text is a prefix of what follows the leading trim-space characters. */
  lemma TrimSlice(s: string)
    ensures Trim(s) == s[|s| - |TrimStart(s)|..][..|Trim(s)|]
  {
  }

  /** Everything after the slice Trim keeps is a trim-space character. */
  lemma TrimTail(s: string)
    ensures forall k :: |s| - |TrimStart(s)| + |Trim(s)| <= k < |s| ==> IsTrimSpace(s[k])
  {
    var t := TrimStart(s);
    var i := |s| - |t|;
    forall k | i + |Trim(s)| <= k < |s|
      ensures IsTrimSpace(s[k])
    {
      assert t[k - i] == s[k];
    }
  }

  /** Every character the trimmed text holds comes from s. */
  lemma TrimChars(s: string)
    ensures forall c :: c in TrimEnd(TrimStart(s)) ==> c in s
  {
    var t := TrimStart(s);
    var r := TrimEnd(t);
    forall c | c in r ensures c in s {
      var k :| 0 <= k < |r| && r[k] == c;
      assert t[k] == c;
      assert s[|s| - |t| + k] == c;
    }
  }

  /** Trimming a space followed by an already trimmed string gives that string back. */
  lemma TrimAfterSpace(s: string)
    requires IsTrimmed(s)
    ensures Trim([' '] + s) == s
  {
    assert ([' '] + s)[1..] == s;
  }

  /**
   * The substrings between consecutive occurrences of c, including empty ones and the one after
   * the last occurrence: what String.split computes before it removes trailing empty strings.
   */
  function Pieces(s: string, c: char): (r: seq<string>)
    ensures |r| >= 1
    ensures forall i :: 0 <= i < |r| ==> c !in r[i]
  {
    if s == [] then [[]]
    else
      var rest := Pieces(s[1..], c);
      if s[0] == c then [[]] + rest else [[s[0]] + rest[0]] + rest[1..]
  }

  /** Removes the empty strings at the end of r. */
  function DropTrailingEmpty(r: seq<string>): (t: seq<string>)
    ensures |t| <= |r| && t == r[..|t|]
    ensures t == [] || t[|t| - 1] != []
    ensures forall i :: |t| <= i < |r| ==> r[i] == []
  {
    if r != [] && r[|r| - 1] == [] then DropTrailingEmpty(r[..|r| - 1]) else r
  }

  /**
   * String.split(String.valueOf(c)): when c does not occur, the whole string is the one part
   * (so "" splits into [""]); otherwise the pieces between the occurrences of c with the trailing
   * empty strings removed (so "," splits into no part at all).
   */
  function Split(s: string, c: char): (parts: seq<string>)
    ensures forall i :: 0 <= i < |parts| ==> c !in parts[i]
    ensures c !in s ==> parts == [s]
  {
    if c !in s then [s] else DropTrailingEmpty(Pieces(s, c))
  }

  /** String.join(sep, parts). */
  function Join(parts: seq<string>, sep: string): string
  {
    if parts == [] then []
    else if |parts| == 1 then parts[0]
    else parts[0] + sep + Join(parts[1..], sep)
  }

  /** Joining the pieces of s with c rebuilds s. */
  lemma {:induction false} JoinOfPieces(s: string, c: char)
    ensures Join(Pieces(s, c), [c]) == s
  {
    if s != [] {
      JoinOfPieces(s[1..], c);
      var rest := Pieces(s[1..], c);
      if s[0] == c {
        assert Pieces(s, c) == [[]] + rest;
        assert ([[]] + rest)[1..] == rest;
      } else {
        var r := [[s[0]] + rest[0]] + rest[1..];
        assert Pieces(s, c) == r;
        if |rest| > 1 {
          assert r[1..] == rest[1..];
          assert Join(rest, [c]) == rest[0] + [c] + Join(rest[1..], [c]);
        }
      }
    }
  }

  /** The pieces of a string that starts with x: a new empty piece when x is c, else x joins the first piece. */
  lemma PiecesCons(x: char, rest: string, c: char)
    ensures var p := Pieces(rest, c);
            Pieces([x] + rest, c) == if x == c then [[]] + p else [[x] + p[0]] + p[1..]
  {
    assert ([x] + rest)[1..] == rest;
  }

  lemma JoinFirstPiece(first: string, pa: seq<string>, pb: seq<string>)
    requires pa != []
    ensures [first + pa[0]] + pa[1..] + pb == [first + (pa + pb)[0]] + (pa + pb)[1..]
  {
    assert (pa + pb)[1..] == pa[1..] + pb;
  }

  /** Splitting a, then c, then b, gives the pieces of a followed by the pieces of b. */
  lemma {:induction false} PiecesAround(a: string, b: string, c: char)
    ensures Pieces(a + [c] + b, c) == Pieces(a, c) + Pieces(b, c)
  {
    if a == [] {
      assert a + [c] + b == [c] + b;
      PiecesCons(c, b, c);
    } else {
      var x, t := a[0], a[1..];
      assert a == [x] + t && a + [c] + b == [x] + (t + [c] + b);
      PiecesAround(t, b, c);
      PiecesCons(x, t + [c] + b, c);
      PiecesCons(x, t, c);
      var pa, pb := Pieces(t, c), Pieces(b, c);
      if x == c {
        assert [[]] + pa + pb == [[]] + (pa + pb);
      } else {
        JoinFirstPiece([x], pa, pb);
      }
    }
  }

  /** A string without c is its own only piece. */
  lemma {:induction false} PiecesWithout(s: string, c: char)
    requires c !in s
    ensures Pieces(s, c) == [s]
  {
    if s != [] {
      PiecesWithout(s[1..], c);
      assert [s[0]] + s[1..] == s;
    }
  }

  /** Pieces undoes Join when no part holds the separator. */
  lemma {:induction false} PiecesOfJoin(parts: seq<string>, c: char)
    requires |parts| >= 1
    requires forall i :: 0 <= i < |parts| ==> c !in parts[i]
    ensures Pieces(Join(parts, [c]), c) == parts
  {
    if |parts| == 1 {
      PiecesWithout(parts[0], c);
    } else {
      PiecesOfJoin(parts[1..], c);
      PiecesWithout(parts[0], c);
      PiecesAround(parts[0], Join(parts[1..], [c]), c);
      assert [parts[0]] + parts[1..] == parts;
    }
  }

  /** When s does not end with c, the last piece of s is not empty. */
  lemma {:induction false} LastPieceNotEmpty(s: string, c: char)
    requires s != [] && s[|s| - 1] != c
    ensures Pieces(s, c)[|Pieces(s, c)| - 1] != []
  {
    if |s| > 1 {
      LastPieceNotEmpty(s[1..], c);
    }
  }

  /** Split and Join with c are inverse when no part holds c and the last part is not empty. */
  lemma SplitOfJoin(parts: seq<string>, c: char)
    requires |parts| >= 2
    requires forall i :: 0 <= i < |parts| ==> c !in parts[i]
    requires parts[|parts| - 1] != []
    ensures Split(Join(parts, [c]), c) == parts
  {
    var s := Join(parts, [c]);
    PiecesOfJoin(parts, c);
    assert s == parts[0] + [c] + Join(parts[1..], [c]);
    assert s[|parts[0]|] == c;
  }

  /** Join with c undoes Split by c when s does not end with c. */
  lemma JoinOfSplit(s: string, c: char)
    requires s == [] || s[|s| - 1] != c
    ensures Join(Split(s, c), [c]) == s
  {
    if c in s {
      LastPieceNotEmpty(s, c);
      JoinOfPieces(s, c);
    }
  }
}

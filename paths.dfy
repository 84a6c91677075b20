/** Splitting a component path such as "/System/SubB" on '/', as Java's
    `String.split("/")` does: every '/' separates two pieces, the leading
    empty piece is kept, and trailing empty pieces are dropped, except that a
    string with no '/' at all comes back whole (even when it is empty). */
module Paths {

  /** The number of '/' in `s`. */
  function Slashes(s: string): nat
  {
    if s == [] then 0 else (if s[0] == '/' then 1 else 0) + Slashes(s[1..])
  }

  /** The pieces between separators, none dropped: k separators give k + 1
      pieces, and no piece holds a '/'. */
  function Pieces(s: string): (r: seq<string>)
    ensures |r| == Slashes(s) + 1
    ensures forall i :: 0 <= i < |r| ==> '/' !in r[i]
  {
    if s == [] then [""]
    else
      var rest := Pieces(s[1..]);
      if s[0] == '/' then [""] + rest else [[s[0]] + rest[0]] + rest[1..]
  }

  /** The inverse of Pieces: the pieces glued back with '/' between them. */
  function Join(pieces: seq<string>): string
    requires |pieces| >= 1
  {
    if |pieces| == 1 then pieces[0] else pieces[0] + "/" + Join(pieces[1..])
  }

  /** Drops the empty pieces at the end, as `split` with limit 0 does. */
  function DropTrailingEmpty(pieces: seq<string>): (r: seq<string>)
    ensures |r| <= |pieces| && r == pieces[..|r|]
    ensures r == [] || r[|r| - 1] != ""
    ensures forall i :: |r| <= i < |pieces| ==> pieces[i] == ""
  {
    if pieces != [] && pieces[|pieces| - 1] == "" then DropTrailingEmpty(pieces[..|pieces| - 1])
    else pieces
  }

  /** `s.split("/")`. */
  function SplitSlash(s: string): (r: seq<string>)
    ensures forall i :: 0 <= i < |r| ==> '/' !in r[i]
  {
    if '/' !in s then [s] else DropTrailingEmpty(Pieces(s))
  }

  /** The absolute path "/n1/n2/.../nk" of a sequence of names. */
  function PathOf(names: seq<string>): string
  {
    if names == [] then "" else "/" + names[0] + PathOf(names[1..])
  }

  /** A name usable as a path segment. */
  predicate IsSegment(name: string)
  {
    name != "" && '/' !in name
  }

  /** Gluing the pieces of a string gives the string back. */
  lemma {:induction false} JoinPieces(s: string)
    ensures Join(Pieces(s)) == s
  {
    if s != [] {
      var rest := Pieces(s[1..]);
      JoinPieces(s[1..]);
      if s[0] == '/' {
        assert Pieces(s)[1..] == rest;
      } else {
        var r := Pieces(s);
        if |rest| == 1 {
          assert r == [[s[0]] + rest[0]];
        } else {
          assert r[1..] == rest[1..];
          assert Join(rest) == rest[0] + "/" + Join(rest[1..]);
        }
      }
    }
  }

  /** Splitting the glued pieces, none of which holds a '/', gives the pieces
      back. */
  lemma {:induction false} PiecesJoin(pieces: seq<string>)
    requires |pieces| >= 1
    requires forall i :: 0 <= i < |pieces| ==> '/' !in pieces[i]
    ensures Pieces(Join(pieces)) == pieces
  {
    if |pieces| == 1 {
      PiecesOfSlashFree(pieces[0]);
    } else {
      PiecesJoin(pieces[1..]);
      PiecesPrefix(pieces[0], Join(pieces[1..]));
    }
  }

  /** A string with no '/' is a single piece. */
  lemma {:induction false} PiecesOfSlashFree(s: string)
    requires '/' !in s
    ensures Pieces(s) == [s]
  {
    if s != [] {
      assert s[0] in s;
      PiecesOfSlashFree(s[1..]);
      assert [s[0]] + s[1..] == s;
    }
  }

  /** Putting a '/'-free word and a '/' in front of a string prepends the
      word as a piece. */
  lemma {:induction false} PiecesPrefix(w: string, t: string)
    requires '/' !in w
    ensures Pieces(w + "/" + t) == [w] + Pieces(t)
  {
    if w == [] {
      assert w + "/" + t == ['/'] + t;
      assert (['/'] + t)[1..] == t;
    } else {
      assert (w + "/" + t)[1..] == w[1..] + "/" + t;
      PiecesPrefix(w[1..], t);
      assert [w[0]] + w[1..] == w;
    }
  }

  /** The path of well-formed names splits into the empty leading piece
      followed by the names. */
  lemma {:induction false} SplitPathOf(names: seq<string>)
    requires names != []
    requires forall i :: 0 <= i < |names| ==> IsSegment(names[i])
    ensures SplitSlash(PathOf(names)) == [""] + names
  {
    PathOfIsJoin(names);
    var pieces := [""] + names;
    assert forall i :: 0 <= i < |pieces| ==> '/' !in pieces[i];
    PiecesJoin(pieces);
    assert '/' in PathOf(names) by {
      assert PathOf(names)[0] == '/';
    }
  }

  lemma {:induction false} PathOfIsJoin(names: seq<string>)
    ensures PathOf(names) == Join([""] + names)
  {
    if names != [] {
      PathOfIsJoin(names[1..]);
      if |names| == 1 {
        assert PathOf(names[1..]) == "";
        assert Join([""] + names) == "" + "/" + Join(names);
      } else {
        assert ([""] + names)[1..] == names;
        assert ([""] + names[1..])[1..] == names[1..];
        assert Join(names) == names[0] + "/" + Join(names[1..]);
      }
    }
  }

  /** A '/' added at the end of a non-empty path changes nothing: the empty
      piece it adds is dropped. */
  lemma {:induction false} TrailingSlashIgnored(s: string)
    requires s != []
    ensures SplitSlash(s + "/") == SplitSlash(s)
  {
    PiecesAppendSlash(s);
    var p := Pieces(s);
    assert p + [""] != [] && (p + [""])[|p + [""]| - 1] == "";
    assert (p + [""])[..|p|] == p;
    if '/' !in s {
      PiecesOfSlashFree(s);
    }
  }

  lemma {:induction false} PiecesAppendSlash(s: string)
    ensures Pieces(s + "/") == Pieces(s) + [""]
  {
    if s == [] {
      assert s + "/" == "/";
    } else {
      assert (s + "/")[1..] == s[1..] + "/";
      PiecesAppendSlash(s[1..]);
    }
  }
}

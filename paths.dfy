/**
 The path splitter: a path string is split on '/' and the empty pieces are
 dropped, so leading, trailing and repeated separators collapse and the empty
 segment list names the root.
 */
module Paths {

  const Sep: char := '/'

  /** A name that may key a directory entry: non-empty and free of '/'. */
  predicate ValidName(s: string) {
    s != [] && Sep !in s
  }

  /** Splitting on '/', keeping empty pieces, as `str::split` does:
      n separators give n + 1 pieces. */
  function Split(s: string): (pieces: seq<string>)
    ensures |pieces| >= 1
  {
    if s == [] then [[]]
    else if s[0] == Sep then [[]] + Split(s[1..])
    else
      var rest := Split(s[1..]);
      [[s[0]] + rest[0]] + rest[1..]
  }

  /** One more piece than there are separators. */
  lemma {:induction false} SplitCount(s: string)
    ensures |Split(s)| == multiset(s)[Sep] + 1
  {
    if s != [] {
      SplitCount(s[1..]);
      assert s == [s[0]] + s[1..];
    }
  }

  /** The inverse of Split: the pieces glued back with '/'. */
  function Join(pieces: seq<string>): string
    requires |pieces| >= 1
  {
    if |pieces| == 1 then pieces[0] else pieces[0] + [Sep] + Join(pieces[1..])
  }

  /** Keeps the non-empty pieces, in order. */
  function NonEmpty(pieces: seq<string>): (kept: seq<string>)
    ensures forall i :: 0 <= i < |kept| ==> kept[i] != []
    ensures forall p :: p in kept ==> p in pieces
    ensures |kept| <= |pieces|
  {
    if pieces == [] then []
    else if pieces[0] == [] then NonEmpty(pieces[1..])
    else [pieces[0]] + NonEmpty(pieces[1..])
  }

  /** Nothing non-empty is dropped. */
  lemma {:induction false} NonEmptyKeeps(pieces: seq<string>)
    ensures forall p :: p in pieces && p != [] ==> p in NonEmpty(pieces)
  {
    if pieces != [] {
      NonEmptyKeeps(pieces[1..]);
      assert forall p :: p in pieces ==> p == pieces[0] || p in pieces[1..];
    }
  }

  /** `segments`: split on '/' and drop the empty pieces. */
  function Segments(path: string): (segs: seq<string>)
    ensures forall p :: p in segs <==> p in Split(path) && p != []
  {
    NonEmptyKeeps(Split(path));
    NonEmpty(Split(path))
  }

  lemma {:induction false} SplitPiecesHaveNoSep(s: string)
    ensures forall p :: p in Split(s) ==> Sep !in p
  {
    if s != [] {
      SplitPiecesHaveNoSep(s[1..]);
    }
  }

  /** Split and Join are inverse: no character is lost or invented. */
  lemma {:induction false} JoinSplit(s: string)
    ensures Join(Split(s)) == s
  {
    if s == [] {
    } else if s[0] == Sep {
      JoinSplit(s[1..]);
      assert Split(s)[1..] == Split(s[1..]);
      assert s == [s[0]] + s[1..];
    } else {
      JoinSplit(s[1..]);
      var rest := Split(s[1..]);
      if |rest| == 1 {
        assert s == [s[0]] + rest[0];
      } else {
        assert Split(s)[1..] == rest[1..];
        assert Join(rest) == rest[0] + [Sep] + Join(rest[1..]);
        assert s == [s[0]] + s[1..];
      }
    }
  }

  /** Every segment is a valid name: never empty, never containing '/'. */
  lemma SegmentsAreValidNames(path: string)
    ensures forall seg :: seg in Segments(path) ==> ValidName(seg)
  {
    SplitPiecesHaveNoSep(path);
  }

  /** A leading '/' starts a new, empty piece. */
  lemma SplitSep(s: string)
    ensures Split([Sep] + s) == [[]] + Split(s)
  {
    assert ([Sep] + s)[1..] == s;
  }

  /** Any other leading character joins the first piece. */
  lemma SplitChar(c: char, s: string)
    requires c != Sep
    ensures Split([c] + s) == [[c] + Split(s)[0]] + Split(s)[1..]
  {
    assert ([c] + s)[0] == c && ([c] + s)[1..] == s;
  }

  /** If `x` splits into the pieces of `t` then those of `b`, a '/' put in
      front of both keeps it so. */
  lemma SplitSepAppend(t: string, x: string, b: string)
    requires Split(x) == Split(t) + Split(b)
    ensures Split([Sep] + x) == Split([Sep] + t) + Split(b)
  {
    SplitSep(x);
    SplitSep(t);
    ConcatAssoc([[]], Split(t), Split(b));
  }

  /** The same for any other character in front. */
  lemma SplitCharAppend(c: char, t: string, x: string, b: string)
    requires c != Sep
    requires Split(x) == Split(t) + Split(b)
    ensures Split([c] + x) == Split([c] + t) + Split(b)
  {
    var rest, sb := Split(t), Split(b);
    SplitChar(c, x);
    SplitChar(c, t);
    HeadTailAppend(rest, sb);
    ConcatAssoc([[c] + rest[0]], rest[1..], sb);
  }

  lemma HeadTailAppend<T>(p: seq<T>, q: seq<T>)
    requires |p| >= 1
    ensures (p + q)[0] == p[0] && (p + q)[1..] == p[1..] + q
  {
  }

  lemma ConcatAssoc<T>(p: seq<T>, q: seq<T>, r: seq<T>)
    ensures p + (q + r) == (p + q) + r
  {
  }

  /** Splitting a path glued at a separator splits each half. */
  lemma {:induction false} SplitAtSep(a: string, b: string)
    ensures Split(a + [Sep] + b) == Split(a) + Split(b)
  {
    if a == [] {
      assert a + [Sep] + b == [Sep] + b;
      SplitSep(b);
    } else {
      var x := a[1..] + [Sep] + b;
      assert a == [a[0]] + a[1..];
      assert a + [Sep] + b == [a[0]] + x;
      SplitAtSep(a[1..], b);
      if a[0] == Sep {
        SplitSepAppend(a[1..], x, b);
      } else {
        SplitCharAppend(a[0], a[1..], x, b);
      }
    }
  }

  lemma {:induction false} NonEmptyAppend(p: seq<string>, q: seq<string>)
    ensures NonEmpty(p + q) == NonEmpty(p) + NonEmpty(q)
  {
    if p == [] {
      assert p + q == q;
    } else {
      var pq := p + q;
      assert pq[0] == p[0] && pq[1..] == p[1..] + q;
      NonEmptyAppend(p[1..], q);
      var head := if p[0] == [] then [] else [p[0]];
      assert NonEmpty(p) == head + NonEmpty(p[1..]);
      assert NonEmpty(pq) == head + NonEmpty(p[1..] + q);
    }
  }

  lemma {:induction false} SplitName(name: string)
    requires Sep !in name
    ensures Split(name) == [name]
  {
    if name != [] {
      SplitName(name[1..]);
      assert name == [name[0]] + name[1..];
    }
  }

  /** Appending "/name" to a path appends exactly one segment. */
  lemma SegmentsChild(path: string, name: string)
    requires ValidName(name)
    ensures Segments(path + [Sep] + name) == Segments(path) + [name]
  {
    SplitAtSep(path, name);
    SplitName(name);
    NonEmptyAppend(Split(path), [name]);
    assert NonEmpty([name]) == [name] + NonEmpty([]);
  }

  /** The separators of a path are irrelevant: "", "/", "//" name the root and
      "/a//b/" names the same place as "a/b". */
  lemma SegmentsExamples()
    ensures Segments("") == []
    ensures Segments("/") == []
    ensures Segments("//") == []
    ensures Segments("/a//b/") == ["a", "b"]
  {
    assert Split("/") == [[], []];
    assert Split("//") == [[], [], []];
    assert "b/"[1..] == "/";
    assert Split("b/") == [['b'] + []] + [[]];
    assert ['b'] + [] == "b";
    assert "/b/"[1..] == "b/";
    assert Split("/b/") == [[], "b", []];
    assert "//b/"[1..] == "/b/";
    assert Split("//b/") == [[], [], "b", []];
    assert "a//b/"[1..] == "//b/";
    assert Split("a//b/") == [['a'] + []] + [[], "b", []];
    assert ['a'] + [] == "a";
    assert "/a//b/"[1..] == "a//b/";
    assert Split("/a//b/") == [[], "a", [], "b", []];
  }
}

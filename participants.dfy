/** The participant list of a draw: the comment authors with duplicates removed,
    in order of first appearance (`[...new Set(comments.map(c => c.author))]`). */
module Participants {

  /** A crawled comment; the draw only looks at its author. */
  datatype Comment = Comment(author: string)

  /** No element occurs twice. */
  predicate Distinct<T(==)>(s: seq<T>) {
    forall i, j :: 0 <= i < j < |s| ==> s[i] != s[j]
  }

  /** `comments.map(c => c.author)` */
  function Authors(comments: seq<Comment>): (r: seq<string>)
    ensures |r| == |comments|
    ensures forall i :: 0 <= i < |comments| ==> r[i] == comments[i].author
  {
    if comments == [] then [] else [comments[0].author] + Authors(comments[1..])
  }

  /** Inserting the elements of `s` one by one into a JavaScript `Set` and spreading
      it back into an array: an element already present is skipped, a new one is
      appended after everything inserted before it. */
  function Dedup(s: seq<string>): (r: seq<string>)
    ensures Distinct(r)
    ensures forall x :: x in r <==> x in s
    ensures |r| <= |s|
  {
    if s == [] then []
    else
      var d := Dedup(s[..|s| - 1]);
      assert s == s[..|s| - 1] + [s[|s| - 1]];
      if s[|s| - 1] in d then d else d + [s[|s| - 1]]
  }

  /** The position of the first occurrence of `x` in `s`. */
  function FirstIndex(s: seq<string>, x: string): (i: nat)
    requires x in s
    ensures i < |s| && s[i] == x && x !in s[..i]
  {
    if s[0] == x then 0 else 1 + FirstIndex(s[1..], x)
  }

  /** Any position that holds `x` with no earlier `x` is the first index. */
  lemma FirstIndexUnique(s: seq<string>, x: string, i: nat)
    requires i < |s| && s[i] == x && x !in s[..i]
    ensures FirstIndex(s, x) == i
  {
  }

  /** Dedup lists the distinct elements in the order of their first appearance. */
  lemma {:induction false} DedupKeepsFirstAppearanceOrder(s: seq<string>)
    ensures forall i, j :: 0 <= i < j < |Dedup(s)| ==>
              FirstIndex(s, Dedup(s)[i]) < FirstIndex(s, Dedup(s)[j])
  {
    if s != [] {
      var p, x := s[..|s| - 1], s[|s| - 1];
      assert s == p + [x];
      DedupKeepsFirstAppearanceOrder(p);
      var d := Dedup(p);
      forall y | y in p
        ensures FirstIndex(s, y) == FirstIndex(p, y)
      {
        var f := FirstIndex(p, y);
        assert s[..f] == p[..f];
        FirstIndexUnique(s, y, f);
      }
      if x !in d {
        assert x !in p;
        assert s[..|p|] == p;
        FirstIndexUnique(s, x, |p|);
      }
    }
  }

  /** The participants of a draw: one entry per distinct comment author. */
  function UniqueUsers(comments: seq<Comment>): (users: seq<string>)
    ensures Distinct(users)
    ensures forall u :: u in users <==> exists i :: 0 <= i < |comments| && comments[i].author == u
    ensures |users| <= |comments|
    ensures |comments| > 0 ==> |users| > 0
  {
    var authors := Authors(comments);
    assert |comments| > 0 ==> authors[0] in authors;
    Dedup(authors)
  }
}

/** Python's `str.split('/')` on paths, and its inverse `'/'.join`. */
module Paths {

  /** `'/'.join(parts)`. */
  function Join(parts: seq<string>): string
    requires |parts| >= 1
    decreases |parts|
  {
    if |parts| == 1 then parts[0] else parts[0] + "/" + Join(parts[1..])
  }

  /** Joining one more piece adds a separator and the piece. */
  lemma {:induction false} JoinSnoc(parts: seq<string>, x: string)
    requires |parts| >= 1
    ensures Join(parts + [x]) == Join(parts) + "/" + x
    decreases |parts|
  {
    if |parts| > 1 {
      assert (parts + [x])[1..] == parts[1..] + [x];
      JoinSnoc(parts[1..], x);
    } else {
      assert (parts + [x])[1..] == [x];
    }
  }

  /** `s.split('/')`: the pieces between separators, never an empty list;
      joining them back gives `s`, and no piece holds a separator. */
  function Split(s: string): (parts: seq<string>)
    ensures |parts| >= 1
    ensures forall i :: 0 <= i < |parts| ==> '/' !in parts[i]
    ensures Join(parts) == s
    decreases |s|
  {
    if |s| == 0 then [""]
    else
      var rest := Split(s[1..]);
      if s[0] == '/' then
        assert ([""] + rest)[1..] == rest;
        [""] + rest
      else
        var first := [s[0]] + rest[0];
        assert ([first] + rest[1..])[1..] == rest[1..];
        assert s == [s[0]] + s[1..];
        [first] + rest[1..]
  }

  /** Splitting is the inverse of joining separator-free pieces. */
  lemma {:induction false} SplitJoin(parts: seq<string>)
    requires |parts| >= 1
    requires forall i :: 0 <= i < |parts| ==> '/' !in parts[i]
    ensures Split(Join(parts)) == parts
    decreases |Join(parts)|
  {
    var s := Join(parts);
    if |parts| == 1 {
      if |parts[0]| > 0 {
        var w := parts[0][1..];
        assert parts[0] == [parts[0][0]] + w;
        SplitJoin([w]);
        assert s[1..] == w;
      }
    } else if |parts[0]| == 0 {
      assert s == "/" + Join(parts[1..]);
      assert s[1..] == Join(parts[1..]);
      SplitJoin(parts[1..]);
      assert parts == [""] + parts[1..];
    } else {
      var c := parts[0][0];
      var w := parts[0][1..];
      var parts' := [w] + parts[1..];
      assert parts'[1..] == parts[1..];
      assert forall i :: 0 <= i < |parts'| ==> '/' !in parts'[i];
      assert parts[0] == [c] + w;
      assert s == [c] + Join(parts');
      assert s[1..] == Join(parts');
      SplitJoin(parts');
      assert parts == [[c] + w] + parts[1..];
    }
  }

  /** Appending a separator and a separator-free piece appends one piece to the split. */
  lemma SplitSnoc(s: string, x: string)
    requires '/' !in x
    ensures Split(s + "/" + x) == Split(s) + [x]
  {
    var parts := Split(s) + [x];
    JoinSnoc(Split(s), x);
    assert forall i :: 0 <= i < |parts| ==> '/' !in parts[i] by {
      assert forall i :: 0 <= i < |Split(s)| ==> parts[i] == Split(s)[i];
    }
    SplitJoin(parts);
  }

  /** A path that starts with the separator splits into an empty first piece. */
  lemma AbsoluteSplit(s: string)
    requires |s| > 0 && s[0] == '/'
    ensures Split(s)[0] == ""
  {
  }

  /** The last piece: `path.split('/')[-1]`. */
  function LastPart(path: string): string {
    var parts := Split(path);
    parts[|parts| - 1]
  }

  /** The pieces a walk of `parts[1:]` visits (`path.split('/')[1:]`). */
  function Tail(path: string): seq<string> {
    Split(path)[1..]
  }

  /** The directory pieces of `parts[1:-1]`, empty when there are fewer than two pieces. */
  function Middle(path: string): seq<string> {
    var parts := Split(path);
    if |parts| >= 2 then parts[1..|parts| - 1] else []
  }

  /** The non-empty pieces, in order: what a loop that skips `if not part` visits. */
  function NonEmpty(parts: seq<string>): (r: seq<string>)
    ensures forall i :: 0 <= i < |r| ==> r[i] != ""
    decreases |parts|
  {
    if |parts| == 0 then []
    else if parts[0] == "" then NonEmpty(parts[1..])
    else [parts[0]] + NonEmpty(parts[1..])
  }

  /** Dropping empty pieces commutes with appending a non-empty piece. */
  lemma {:induction false} NonEmptySnoc(parts: seq<string>, x: string)
    requires x != ""
    ensures NonEmpty(parts + [x]) == NonEmpty(parts) + [x]
    decreases |parts|
  {
    if |parts| == 0 {
      assert parts + [x] == [x];
      assert NonEmpty([x]) == [x] + NonEmpty([]);
    } else {
      assert (parts + [x])[1..] == parts[1..] + [x];
      NonEmptySnoc(parts[1..], x);
    }
  }

  /** Two walks part ways: at some position both have a piece, and the pieces differ. */
  predicate Diverges(q: seq<string>, t: seq<string>) {
    exists i :: 0 <= i < |q| && i < |t| && q[i] != t[i]
  }
}

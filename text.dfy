/**
 * Splitting a request on commas, as Python's `str.split(',')` does: pieces
 * are not trimmed, empty pieces are kept, and there is always at least one
 * piece (the empty string splits into one empty piece).
 */
module Text {

  /** The pieces joined back together with a comma between each two. */
  function Join(pieces: seq<string>): (s: string)
    requires |pieces| >= 1
    decreases |pieces|
  {
    if |pieces| == 1 then pieces[0] else pieces[0] + "," + Join(pieces[1..])
  }

  /** The comma-separated pieces of `s`, in order. */
  function Split(s: string): (r: seq<string>)
    ensures |r| >= 1
    ensures forall i :: 0 <= i < |r| ==> ',' !in r[i]
    ensures Join(r) == s
    decreases |s|
  {
    if s == [] then
      [""]
    else if s[0] == ',' then
      var t := Split(s[1..]);
      assert Join([""] + t) == "," + Join(t) by {
        assert ([""] + t)[1..] == t;
      }
      [""] + t
    else
      var t := Split(s[1..]);
      var r := [[s[0]] + t[0]] + t[1..];
      assert Join(r) == [s[0]] + Join(t) by {
        if |t| > 1 {
          assert r[1..] == t[1..];
          assert Join(r) == ([s[0]] + t[0]) + "," + Join(t[1..]);
        }
      }
      assert [s[0]] + s[1..] == s;
      r
  }

  /** Splitting text that starts with a comma-free piece `a` glues `a` onto the first piece. */
  lemma {:induction false} SplitAfterPiece(a: string, tail: string)
    requires ',' !in a
    ensures Split(a + tail) == [a + Split(tail)[0]] + Split(tail)[1..]
    decreases |a|
  {
    var t := Split(tail);
    if a == [] {
      assert a + tail == tail;
      assert a + t[0] == t[0];
      assert [t[0]] + t[1..] == t;
    } else {
      assert (a + tail)[0] == a[0];
      assert (a + tail)[1..] == a[1..] + tail;
      SplitAfterPiece(a[1..], tail);
      assert [a[0]] + (a[1..] + t[0]) == a + t[0];
    }
  }

  /** Joining comma-free pieces and splitting again gives back the same pieces, empty ones included. */
  lemma {:induction false} SplitJoin(pieces: seq<string>)
    requires |pieces| >= 1
    requires forall i :: 0 <= i < |pieces| ==> ',' !in pieces[i]
    ensures Split(Join(pieces)) == pieces
    decreases |pieces|
  {
    if |pieces| == 1 {
      SplitAfterPiece(pieces[0], "");
      assert pieces[0] + "" == pieces[0];
    } else {
      var rest := Join(pieces[1..]);
      SplitJoin(pieces[1..]);
      assert Join(pieces) == pieces[0] + ("," + rest);
      SplitAfterPiece(pieces[0], "," + rest);
      assert ("," + rest)[0] == ',' && ("," + rest)[1..] == rest;
      assert Split("," + rest) == [""] + pieces[1..];
      assert pieces[0] + "" == pieces[0];
      assert [pieces[0]] + pieces[1..] == pieces;
    }
  }
}

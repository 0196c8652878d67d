/** Java's `String.split(" ")` on the console command, and the join that
    undoes it. */
module JavaString {

  /** No character of `s` is a space. */
  predicate SpaceFree(s: string)
  {
    ' ' !in s
  }

  /** Every piece between single spaces, empty ones included: `s` cut at
      each space. */
  function Pieces(s: string): (r: seq<string>)
    ensures |r| >= 1
    ensures forall i :: 0 <= i < |r| ==> SpaceFree(r[i])
  {
    if s == [] then [[]]
    else
      var rest := Pieces(s[1..]);
      if s[0] == ' ' then [[]] + rest else [[s[0]] + rest[0]] + rest[1..]
  }

  /** The tokens separated by single spaces. */
  function Join(ts: seq<string>): string
  {
    if |ts| == 0 then []
    else if |ts| == 1 then ts[0]
    else ts[0] + " " + Join(ts[1..])
  }

  /** Cutting at every space and joining with spaces gives `s` back. */
  lemma {:induction false} JoinPieces(s: string)
    ensures Join(Pieces(s)) == s
  {
    if s != [] {
      var rest := Pieces(s[1..]);
      JoinPieces(s[1..]);
      if s[0] == ' ' {
        assert ([[]] + rest)[1..] == rest;
      } else {
        var r := [[s[0]] + rest[0]] + rest[1..];
        assert r[1..] == rest[1..];
        if |rest| > 1 {
          assert Join(rest) == rest[0] + " " + Join(rest[1..]);
          assert Join(r) == ([s[0]] + rest[0]) + " " + Join(rest[1..]);
        }
      }
    }
  }

  /** A space-free prefix merges into the first piece. */
  lemma {:induction false} PiecesOfSpaceFreePrefix(a: string, tail: string)
    requires SpaceFree(a)
    ensures Pieces(a + tail) == [a + Pieces(tail)[0]] + Pieces(tail)[1..]
  {
    if a == [] {
      var ps := Pieces(tail);
      assert a + tail == tail;
      assert a + ps[0] == ps[0];
      assert [ps[0]] + ps[1..] == ps;
    } else {
      assert (a + tail)[1..] == a[1..] + tail;
      PiecesOfSpaceFreePrefix(a[1..], tail);
      assert [a[0]] + (a[1..] + Pieces(tail)[0]) == a + Pieces(tail)[0];
    }
  }

  /** Joining space-free tokens and cutting at every space gives the tokens
      back. */
  lemma {:induction false} PiecesJoin(ts: seq<string>)
    requires |ts| >= 1
    requires forall i :: 0 <= i < |ts| ==> SpaceFree(ts[i])
    ensures Pieces(Join(ts)) == ts
  {
    if |ts| == 1 {
      PiecesOfSpaceFreePrefix(ts[0], []);
      assert ts[0] + [] == ts[0];
    } else {
      var rest := Join(ts[1..]);
      PiecesJoin(ts[1..]);
      assert (" " + rest)[1..] == rest;
      assert Pieces(" " + rest) == [[]] + ts[1..];
      assert Join(ts) == ts[0] + (" " + rest);
      PiecesOfSpaceFreePrefix(ts[0], " " + rest);
      assert ts[0] + [] == ts[0];
    }
  }

  /** A trailing space adds one empty piece at the end. */
  lemma {:induction false} PiecesTrailingSpace(s: string)
    ensures Pieces(s + " ") == Pieces(s) + [[]]
  {
    if s == [] {
      assert s + " " == " ";
    } else {
      assert (s + " ")[1..] == s[1..] + " ";
      PiecesTrailingSpace(s[1..]);
    }
  }

  /** `ts` with its trailing empty strings removed. */
  function DropTrailingEmpty(ts: seq<string>): (r: seq<string>)
    ensures |r| <= |ts| && r == ts[..|r|]
    ensures r != [] ==> r[|r| - 1] != []
    ensures forall j :: |r| <= j < |ts| ==> ts[j] == []
  {
    if ts == [] then []
    else if ts[|ts| - 1] == [] then DropTrailingEmpty(ts[..|ts| - 1])
    else ts
  }

  /** A leading non-empty token is kept, and the rest handled on its own. */
  lemma {:induction false} DropTrailingEmptyCons(h: string, ts: seq<string>)
    requires h != []
    ensures DropTrailingEmpty([h] + ts) == [h] + DropTrailingEmpty(ts)
    decreases |ts|
  {
    if ts != [] && ts[|ts| - 1] == [] {
      assert ([h] + ts)[..|ts|] == [h] + ts[..|ts| - 1];
      DropTrailingEmptyCons(h, ts[..|ts| - 1]);
    }
  }

  /** `s.split(" ")`: a string without a space is its own only token;
      otherwise the pieces between single spaces, trailing empty ones removed
      (a leading or inner empty piece stays). */
  function Split(s: string): (r: seq<string>)
    ensures SpaceFree(s) ==> r == [s]
    ensures !SpaceFree(s) ==> |r| <= |Pieces(s)| && r == Pieces(s)[..|r|]
    ensures !SpaceFree(s) ==> (r != [] ==> r[|r| - 1] != [])
    ensures !SpaceFree(s) ==> forall j :: |r| <= j < |Pieces(s)| ==> Pieces(s)[j] == []
    ensures forall i :: 0 <= i < |r| ==> SpaceFree(r[i])
  {
    if SpaceFree(s) then [s] else DropTrailingEmpty(Pieces(s))
  }

  /** Space-free tokens joined by single spaces split back into the same
      tokens, unless the last one is empty (then trailing empties are lost). */
  lemma SplitJoin(ts: seq<string>)
    requires |ts| >= 1
    requires forall i :: 0 <= i < |ts| ==> SpaceFree(ts[i])
    requires |ts| >= 2 ==> ts[|ts| - 1] != []
    ensures Split(Join(ts)) == ts
  {
    if |ts| >= 2 {
      assert Join(ts)[|ts[0]|] == ' ';
      PiecesJoin(ts);
    }
  }

  /** One trailing space changes nothing, except for the empty string. */
  lemma SplitIgnoresTrailingSpace(s: string)
    requires s != []
    ensures Split(s + " ") == Split(s)
  {
    PiecesTrailingSpace(s);
    assert (s + " ")[|s|] == ' ';
    var ps := Pieces(s);
    assert (ps + [[]])[..|ps|] == ps;
    if SpaceFree(s) {
      PiecesOfSpaceFreePrefix(s, []);
      assert s + [] == s;
      assert Pieces([]) == [[]];
      assert ps == [s];
    }
  }

  /** Replacing a non-space first character by another one changes only
      the first token. */
  lemma SplitTailIgnoresFirstChar(x: char, y: char, t: string)
    requires x != ' ' && y != ' '
    ensures |Split([x] + t)| >= 1
    ensures |Split([x] + t)| == |Split([y] + t)|
    ensures Split([x] + t)[1..] == Split([y] + t)[1..]
  {
    assert ([x] + t)[1..] == t && ([y] + t)[1..] == t;
    assert SpaceFree([x] + t) <==> SpaceFree(t);
    assert SpaceFree([y] + t) <==> SpaceFree(t);
    if !SpaceFree(t) {
      var ps := Pieces(t);
      assert Pieces([x] + t) == [[x] + ps[0]] + ps[1..];
      assert Pieces([y] + t) == [[y] + ps[0]] + ps[1..];
      DropTrailingEmptyCons([x] + ps[0], ps[1..]);
      DropTrailingEmptyCons([y] + ps[0], ps[1..]);
    }
  }
}

/**
 * Splitting a line at a delimiter character the way repeated std::getline
 * on a string stream does: every delimiter ends a field, and the end of the
 * input ends the last field only if that field is not empty.
 */
module Split {

  /**
   * The pieces of s between delimiters: k delimiters give k + 1 pieces, any
   * of which may be empty. Defined on the last character, so that it grows
   * the way a left-to-right scan of s does.
   */
  function Pieces(s: string, d: char): (r: seq<string>)
    ensures |r| >= 1
    decreases |s|
  {
    if s == [] then [""]
    else
      var p := Pieces(s[..|s| - 1], d);
      if s[|s| - 1] == d then p + [""]
      else p[..|p| - 1] + [p[|p| - 1] + [s[|s| - 1]]]
  }

  /** The fields getline extracts: the pieces, without a final empty one. */
  function Fields(s: string, d: char): seq<string>
  {
    var p := Pieces(s, d);
    if p[|p| - 1] == "" then p[..|p| - 1] else p
  }

  /** The parts, in order, with sep between each two neighbours. */
  function Join(parts: seq<string>, sep: string): string
    decreases |parts|
  {
    if |parts| == 0 then ""
    else if |parts| == 1 then parts[0]
    else Join(parts[..|parts| - 1], sep) + sep + parts[|parts| - 1]
  }

  lemma {:induction false} PiecesAvoidDelimiter(s: string, d: char)
    ensures forall i :: 0 <= i < |Pieces(s, d)| ==> d !in Pieces(s, d)[i]
    decreases |s|
  {
    if s != [] {
      PiecesAvoidDelimiter(s[..|s| - 1], d);
    }
  }

  /** Putting the delimiter back between the pieces gives the input again. */
  lemma {:induction false} JoinPieces(s: string, d: char)
    ensures Join(Pieces(s, d), [d]) == s
    decreases |s|
  {
    if s != [] {
      var init := s[..|s| - 1];
      var p := Pieces(init, d);
      JoinPieces(init, d);
      assert s == init + [s[|s| - 1]];
      if s[|s| - 1] != d {
        var q := p[..|p| - 1];
        if |p| > 1 {
          assert Join(p, [d]) == Join(q, [d]) + [d] + p[|p| - 1];
          assert (q + [p[|p| - 1] + [s[|s| - 1]]])[..|p| - 1] == q;
        }
      }
    }
  }

  /** Text free of the delimiter only lengthens the last piece. */
  lemma {:induction false} PiecesAppendPlain(s: string, t: string, d: char)
    requires d !in t
    ensures var p := Pieces(s, d);
      Pieces(s + t, d) == p[..|p| - 1] + [p[|p| - 1] + t]
    decreases |t|
  {
    var p := Pieces(s, d);
    if t == [] {
      assert s + t == s;
      assert p[|p| - 1] + t == p[|p| - 1];
      assert p == p[..|p| - 1] + [p[|p| - 1]];
    } else {
      var t', c := t[..|t| - 1], t[|t| - 1];
      var p' := Pieces(s + t', d);
      PiecesAppendPlain(s, t', d);
      PiecesAppendChar(s + t', c, d);
      assert s + t == (s + t') + [c];
      assert p'[..|p'| - 1] == p[..|p| - 1];
      assert p'[|p'| - 1] + [c] == p[|p| - 1] + t;
    }
  }

  /** A character other than the delimiter lengthens the last piece. */
  lemma PiecesAppendChar(s: string, c: char, d: char)
    requires c != d
    ensures var p := Pieces(s, d);
      Pieces(s + [c], d) == p[..|p| - 1] + [p[|p| - 1] + [c]]
  {
  }

  lemma PiecesAppendDelimiter(s: string, d: char)
    ensures Pieces(s + [d], d) == Pieces(s, d) + [""]
  {
  }

  /** Each of xs with t in front of it. */
  function PrefixEach(t: string, xs: seq<string>): (r: seq<string>)
    ensures |r| == |xs|
    decreases |xs|
  {
    if xs == [] then [] else PrefixEach(t, xs[..|xs| - 1]) + [t + xs[|xs| - 1]]
  }

  lemma {:induction false} PrefixEachEmpty(xs: seq<string>)
    ensures PrefixEach("", xs) == xs
    decreases |xs|
  {
    if xs != [] {
      PrefixEachEmpty(xs[..|xs| - 1]);
      assert "" + xs[|xs| - 1] == xs[|xs| - 1];
    }
  }

  /**
   * Splitting parts joined by the delimiter followed by t (t free of the
   * delimiter) gives back the first part and then each later part with t in
   * front of it.
   */
  lemma {:induction false} PiecesOfJoin(xs: seq<string>, d: char, t: string)
    requires |xs| >= 1
    requires forall i :: 0 <= i < |xs| ==> d !in xs[i]
    requires d !in t
    ensures Pieces(Join(xs, [d] + t), d) == [xs[0]] + PrefixEach(t, xs[1..])
    decreases |xs|
  {
    var sep := [d] + t;
    if |xs| == 1 {
      PiecesAppendPlain([], xs[0], d);
      assert [] + xs[0] == xs[0];
    } else {
      var init, y := xs[..|xs| - 1], xs[|xs| - 1];
      var a := Join(init, sep);
      assert Join(xs, sep) == (a + [d]) + (t + y) by {
        assert Join(xs, sep) == a + sep + y;
      }
      var q := Pieces(a + [d], d);
      assert q == Pieces(a, d) + [""] by {
        PiecesAppendDelimiter(a, d);
      }
      assert Pieces((a + [d]) + (t + y), d) == Pieces(a, d) + [t + y] by {
        PiecesAppendPlain(a + [d], t + y, d);
        assert q[..|q| - 1] == Pieces(a, d);
        assert q[|q| - 1] + (t + y) == t + y;
      }
      assert Pieces(a, d) == [xs[0]] + PrefixEach(t, init[1..]) by {
        PiecesOfJoin(init, d, t);
      }
      assert PrefixEach(t, xs[1..]) == PrefixEach(t, init[1..]) + [t + y] by {
        assert xs[1..][..|xs| - 2] == init[1..];
      }
    }
  }

  /** Splitting delimiter-free parts joined by the delimiter gives them back. */
  lemma SplitJoin(xs: seq<string>, d: char)
    requires |xs| >= 1
    requires forall i :: 0 <= i < |xs| ==> d !in xs[i]
    ensures Pieces(Join(xs, [d]), d) == xs
  {
    calc {
      Pieces(Join(xs, [d]), d);
    == { assert [d] + "" == [d]; PiecesOfJoin(xs, d, ""); }
      [xs[0]] + PrefixEach("", xs[1..]);
    == { PrefixEachEmpty(xs[1..]); }
      [xs[0]] + xs[1..];
    == { assert [xs[0]] + xs[1..] == xs; }
      xs;
    }
  }

  /**
   * getline's fields put back together with the delimiter give the input,
   * less one final delimiter when the input ends with one: that final empty
   * field is not produced. An empty input has no fields.
   */
  lemma FieldsRoundTrip(s: string, d: char)
    ensures s == [] ==> Fields(s, d) == []
    ensures s != [] && s[|s| - 1] == d ==> Join(Fields(s, d), [d]) + [d] == s
    ensures s != [] && s[|s| - 1] != d ==> Join(Fields(s, d), [d]) == s
  {
    if s != [] {
      var init := s[..|s| - 1];
      JoinPieces(init, d);
      JoinPieces(s, d);
      assert s == init + [s[|s| - 1]];
    }
  }

  /** No field contains the delimiter. */
  lemma FieldsAvoidDelimiter(s: string, d: char)
    ensures forall i :: 0 <= i < |Fields(s, d)| ==> d !in Fields(s, d)[i]
  {
    PiecesAvoidDelimiter(s, d);
  }

  /** Fields inverts Join for delimiter-free parts whose last part is not empty. */
  lemma FieldsOfJoin(xs: seq<string>, d: char)
    requires |xs| >= 1 && xs[|xs| - 1] != ""
    requires forall i :: 0 <= i < |xs| ==> d !in xs[i]
    ensures Fields(Join(xs, [d]), d) == xs
  {
    SplitJoin(xs, d);
  }

  /**
   * Reads str one character at a time as getline does: a delimiter ends the
   * current field, which is kept even when empty; at the end of the input the
   * current field is kept only if something was read into it.
   */
  method SplitString(str: string, delimiter: char) returns (results: seq<string>)
    ensures results == Fields(str, delimiter)
    ensures forall i :: 0 <= i < |results| ==> delimiter !in results[i]
  {
    results := [];
    var item := "";
    var i := 0;
    while i < |str|
      invariant 0 <= i <= |str|
      invariant Pieces(str[..i], delimiter) == results + [item]
    {
      assert str[..i + 1][..i] == str[..i];
      if str[i] == delimiter {
        results := results + [item];
        item := "";
      } else {
        item := item + [str[i]];
      }
      i := i + 1;
    }
    assert str[..|str|] == str;
    if item != "" {
      results := results + [item];
    }
    FieldsAvoidDelimiter(str, delimiter);
  }
}

/** `String.split(",")` as Java defines it for a limit of zero: cut the string at
    every comma, then drop the empty pieces at the end; a string with no comma
    at all comes back whole, even when it is empty. */
module JavaStrings {

  const Comma: char := ','

  /** Every comma-separated piece of `s`, empty ones included: `n` commas give
      `n + 1` pieces, none of which contains a comma. */
  function SplitAll(s: string): (r: seq<string>)
    ensures |r| >= 1
    ensures forall i :: 0 <= i < |r| ==> Comma !in r[i]
  {
    if |s| == 0 then [""]
    else
      var rest := SplitAll(s[1..]);
      if s[0] == Comma then [""] + rest
      else
        assert forall i :: 0 <= i < |rest[0]| ==> ([s[0]] + rest[0])[i + 1] == rest[0][i];
        [[s[0]] + rest[0]] + rest[1..]
  }

  /** The pieces glued back together with a comma between neighbours. */
  function Join(ps: seq<string>): string
  {
    if |ps| == 0 then ""
    else if |ps| == 1 then ps[0]
    else ps[0] + [Comma] + Join(ps[1..])
  }

  /** Java's clean-up after splitting: while the last piece is empty, remove it.
      What is kept is a prefix of the pieces, every removed piece is empty, and
      the kept prefix does not end in an empty piece. */
  function DropTrailingEmpty(ps: seq<string>): (r: seq<string>)
    ensures |r| <= |ps| && r == ps[..|r|]
    ensures forall i :: |r| <= i < |ps| ==> ps[i] == ""
    ensures |r| == 0 || r[|r| - 1] != ""
  {
    if |ps| > 0 && ps[|ps| - 1] == "" then DropTrailingEmpty(ps[..|ps| - 1]) else ps
  }

  /** `s.split(",")`. */
  function JavaSplit(s: string): (r: seq<string>)
    ensures forall i :: 0 <= i < |r| ==> Comma !in r[i]
    ensures Comma !in s ==> r == [s]
    ensures Comma in s ==> |r| == 0 || r[|r| - 1] != ""
    ensures Join(r) <= s
    ensures forall i :: |Join(r)| <= i < |s| ==> s[i] == Comma
  {
    if Comma !in s then [s]
    else
      var all := SplitAll(s);
      JoinSplitAll(s);
      JoinDropTrailingEmpty(all);
      DropTrailingEmpty(all)
  }

  /** Joining the pieces of a split gives back the original string. */
  lemma {:induction false} JoinSplitAll(s: string)
    ensures Join(SplitAll(s)) == s
  {
    if |s| > 0 {
      var rest := SplitAll(s[1..]);
      JoinSplitAll(s[1..]);
      if s[0] == Comma {
        assert ([""] + rest)[1..] == rest;
        assert s == [s[0]] + s[1..];
      } else {
        var head := [s[0]] + rest[0];
        var r := [head] + rest[1..];
        assert r[1..] == rest[1..];
        if |rest| == 1 {
          assert s == [s[0]] + s[1..];
        } else {
          assert Join(rest) == rest[0] + [Comma] + Join(rest[1..]);
          assert s == [s[0]] + s[1..];
        }
      }
    }
  }

  /** Splitting a comma-free prefix glued onto `t`: the prefix lands at the front
      of the first piece of `t`. */
  lemma {:induction false} SplitAllCommaFreePrefix(p: string, t: string)
    requires Comma !in p
    ensures SplitAll(p + t) == [p + SplitAll(t)[0]] + SplitAll(t)[1..]
  {
    if |p| == 0 {
      var r := SplitAll(t);
      assert p + t == t && p + r[0] == r[0];
      assert r == [r[0]] + r[1..];
    } else {
      SplitAllCommaFreePrefix(p[1..], t);
      assert (p + t)[1..] == p[1..] + t;
      assert p[0] != Comma by { assert p[0] in p; }
      assert [p[0]] + (p[1..] + SplitAll(t)[0]) == p + SplitAll(t)[0];
    }
  }

  /** Splitting comma-free pieces that were joined gives back exactly those pieces. */
  lemma {:induction false} SplitAllJoin(ps: seq<string>)
    requires |ps| >= 1
    requires forall i :: 0 <= i < |ps| ==> Comma !in ps[i]
    ensures SplitAll(Join(ps)) == ps
  {
    if |ps| == 1 {
      SplitAllCommaFreePrefix(ps[0], "");
      assert ps[0] + "" == ps[0];
    } else {
      var t := [Comma] + Join(ps[1..]);
      SplitAllJoin(ps[1..]);
      assert t[1..] == Join(ps[1..]);
      assert SplitAll(t) == [""] + ps[1..];
      SplitAllCommaFreePrefix(ps[0], t);
      assert ps[0] + t == Join(ps);
      assert ps[0] + "" == ps[0];
    }
  }

  /** Appending an empty piece appends one comma to the joined string. */
  lemma {:induction false} JoinAppendEmpty(ps: seq<string>)
    requires |ps| >= 1
    ensures Join(ps + [""]) == Join(ps) + [Comma]
  {
    if |ps| > 1 {
      JoinAppendEmpty(ps[1..]);
      assert (ps + [""])[1..] == ps[1..] + [""];
    }
  }

  /** Dropping the trailing empty pieces removes only commas from the end of the
      joined string. */
  lemma {:induction false} JoinDropTrailingEmpty(ps: seq<string>)
    requires |ps| >= 1
    ensures Join(DropTrailingEmpty(ps)) <= Join(ps)
    ensures forall i :: |Join(DropTrailingEmpty(ps))| <= i < |Join(ps)| ==> Join(ps)[i] == Comma
    decreases |ps|
  {
    if ps[|ps| - 1] == "" && |ps| > 1 {
      var q := ps[..|ps| - 1];
      assert ps == q + [""];
      JoinAppendEmpty(q);
      JoinDropTrailingEmpty(q);
    }
  }

  /** Joined pieces whose last piece is non-empty end in that piece's last
      character, so they end in something other than a comma. */
  lemma {:induction false} JoinEndsInLastPiece(ps: seq<string>)
    requires |ps| >= 1
    requires forall i :: 0 <= i < |ps| ==> Comma !in ps[i]
    requires ps[|ps| - 1] != ""
    ensures |Join(ps)| > 0 && Join(ps)[|Join(ps)| - 1] != Comma
  {
    var last := ps[|ps| - 1];
    assert last[|last| - 1] in last;
    if |ps| > 1 {
      JoinEndsInLastPiece(ps[1..]);
    }
  }

  /** `JavaSplit` is the only list of comma-free pieces, not ending in an empty
      piece, whose join is `s` up to a run of trailing commas. */
  lemma {:induction false} JavaSplitUnique(s: string, r: seq<string>)
    requires Comma in s
    requires forall i :: 0 <= i < |r| ==> Comma !in r[i]
    requires |r| == 0 || r[|r| - 1] != ""
    requires Join(r) <= s
    requires forall i :: |Join(r)| <= i < |s| ==> s[i] == Comma
    ensures JavaSplit(s) == r
  {
    var j := JavaSplit(s);
    if |Join(j)| < |Join(r)| {
      JoinEndsInLastPiece(r);
      assert false;
    }
    if |Join(r)| < |Join(j)| {
      JoinEndsInLastPiece(j);
      assert false;
    }
    assert Join(j) == s[..|Join(j)|] == Join(r);
    if |r| == 0 {
      if |j| > 0 {
        JoinEndsInLastPiece(j);
      }
    } else {
      if |j| == 0 {
        JoinEndsInLastPiece(r);
      }
      SplitAllJoin(r);
      SplitAllJoin(j);
    }
  }
}

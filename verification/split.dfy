/** `splitStringLoop`: cut a string at every whitespace character. Each
    whitespace character ends one piece and starts the next, so runs of
    whitespace give empty pieces and there is always one piece more than
    there are whitespace characters. */
module Split {
  import opened Chars

  /** The whitespace characters of `s`, in order. */
  function Spaces(s: string): (r: string)
    ensures |r| <= |s| && forall k :: 0 <= k < |r| ==> IsSpace(r[k])
  {
    if s == [] then []
    else Spaces(s[..|s| - 1]) + (if IsSpace(s[|s| - 1]) then [s[|s| - 1]] else [])
  }

  /** No whitespace in `s`. */
  predicate Solid(s: string) {
    forall k :: 0 <= k < |s| ==> !IsSpace(s[k])
  }

  /** The pieces put back together, with the `k`-th separator between pieces
      `k` and `k + 1`. */
  function Join(pieces: seq<string>, seps: string): string
    requires |pieces| == |seps| + 1
  {
    if |seps| == 0 then pieces[0]
    else Join(pieces[..|pieces| - 1], seps[..|seps| - 1]) + [seps[|seps| - 1]] + pieces[|pieces| - 1]
  }

  /** `splitStringLoop`: the pieces between whitespace characters, which put
      back together with those characters give the string again. */
  method SplitStringLoop(str: string) returns (split: seq<string>)
    ensures |split| == |Spaces(str)| + 1
    ensures forall k :: 0 <= k < |split| ==> Solid(split[k])
    ensures Join(split, Spaces(str)) == str
  {
    split := [];
    var s := "";
    var i := 0;
    while i < |str|
      invariant 0 <= i <= |str| && Scanned(str[..i], split, s)
    {
      var c := str[i];
      SpacesStep(str, i);
      if IsSpace(c) {
        ScanSpace(str[..i], split, s, c);
        split := split + [s];
        s := "";
      } else {
        ScanOther(str[..i], split, s, c);
        s := s + [c];
      }
      i := i + 1;
    }
    assert str[..|str|] == str;
    split := split + [s];
  }

  // ---------------------------------------------------------------------
  // The loop

  /** After reading `read`: the finished pieces `split` and the current
      piece `s` are whitespace-free and join back into `read`. */
  ghost predicate Scanned(read: string, split: seq<string>, s: string) {
    |split| == |Spaces(read)| && (forall k :: 0 <= k < |split| ==> Solid(split[k])) &&
    Solid(s) && Join(split + [s], Spaces(read)) == read
  }

  /** One more character read. */
  lemma SpacesStep(str: string, i: int)
    requires 0 <= i < |str|
    ensures str[..i + 1] == str[..i] + [str[i]]
    ensures Spaces(str[..i + 1]) == Spaces(str[..i]) + (if IsSpace(str[i]) then [str[i]] else [])
  {
    assert str[..i + 1][..i] == str[..i];
  }

  /** Whitespace closes the current piece and starts an empty one. */
  lemma ScanSpace(read: string, split: seq<string>, s: string, c: char)
    requires Scanned(read, split, s) && IsSpace(c)
    ensures Scanned(read + [c], split + [s], "")
  {
    assert Spaces(read + [c]) == Spaces(read) + [c] by {
      assert (read + [c])[..|read|] == read;
    }
    JoinSeparated(split + [s], Spaces(read), c);
  }

  /** Any other character extends the current piece. */
  lemma ScanOther(read: string, split: seq<string>, s: string, c: char)
    requires Scanned(read, split, s) && !IsSpace(c)
    ensures Scanned(read + [c], split, s + [c])
  {
    assert Spaces(read + [c]) == Spaces(read) by {
      assert (read + [c])[..|read|] == read;
    }
    JoinExtend(split, s, Spaces(read), c);
  }

  /** A separator followed by an empty piece adds the separator to the
      joined string. */
  lemma JoinSeparated(pieces: seq<string>, seps: string, c: char)
    requires |pieces| == |seps| + 1
    ensures Join(pieces + [""], seps + [c]) == Join(pieces, seps) + [c]
  {
    var p := pieces + [""];
    var q := seps + [c];
    assert p[..|p| - 1] == pieces && q[..|q| - 1] == seps;
  }

  /** A character added to the last piece is added to the joined string. */
  lemma JoinExtend(pieces: seq<string>, s: string, seps: string, c: char)
    requires |pieces| == |seps|
    ensures Join(pieces + [s + [c]], seps) == Join(pieces + [s], seps) + [c]
  {
    var p := pieces + [s + [c]];
    var p' := pieces + [s];
    if |seps| > 0 {
      assert p[..|p| - 1] == pieces == p'[..|p'| - 1];
    }
  }

  // ---------------------------------------------------------------------
  // The result is the only one

  /** Whitespace-free pieces are determined by the string they join into:
      so the contract of `SplitStringLoop` fixes its result. */
  lemma {:induction false} JoinUnique(p: seq<string>, p': seq<string>, seps: string)
    requires |p| == |p'| == |seps| + 1 && forall k :: 0 <= k < |seps| ==> IsSpace(seps[k])
    requires (forall k :: 0 <= k < |p| ==> Solid(p[k])) && (forall k :: 0 <= k < |p'| ==> Solid(p'[k]))
    requires Join(p, seps) == Join(p', seps)
    ensures p == p'
    decreases |seps|
  {
    if |seps| > 0 {
      var n := |p| - 1;
      var head, head' := Join(p[..n], seps[..|seps| - 1]), Join(p'[..n], seps[..|seps| - 1]);
      var c := seps[|seps| - 1];
      var str := Join(p, seps);
      assert str == head + [c] + p[n] == head' + [c] + p'[n];
      SameLastPiece(head, head', c, p[n], p'[n]);
      assert head == head' by {
        assert head == str[..|head|] && head' == str[..|head'|];
      }
      JoinUnique(p[..n], p'[..n], seps[..|seps| - 1]);
      assert p == p[..n] + [p[n]] && p' == p'[..n] + [p'[n]];
    }
  }

  /** The piece after the last separator is the string's whitespace-free
      tail. */
  lemma SameLastPiece(head: string, head': string, c: char, last: string, last': string)
    requires IsSpace(c) && Solid(last) && Solid(last')
    requires head + [c] + last == head' + [c] + last'
    ensures last == last' && |head| == |head'|
  {
    var str := head + [c] + last;
    assert str[|head|] == c && str[|head'|] == c;
    assert forall k :: |head| < k < |str| ==> str[k] == last[k - |head| - 1];
    assert forall k :: |head'| < k < |str| ==> str[k] == last'[k - |head'| - 1];
    assert last == str[|str| - |last|..] && last' == str[|str| - |last'|..];
  }

  // ---------------------------------------------------------------------
  // Joining, then reading the whitespace back

  /** Joining whitespace-free pieces with whitespace separators, the
      separators are exactly the whitespace of the result: with
      `JoinUnique`, splitting `Join(pieces, seps)` gives `pieces` back. */
  lemma {:induction false} JoinSpaces(pieces: seq<string>, seps: string)
    requires |pieces| == |seps| + 1 && forall k :: 0 <= k < |seps| ==> IsSpace(seps[k])
    requires forall k :: 0 <= k < |pieces| ==> Solid(pieces[k])
    ensures Spaces(Join(pieces, seps)) == seps
    decreases |seps|
  {
    SolidSpaces(pieces[|pieces| - 1]);
    if |seps| > 0 {
      var n := |pieces| - 1;
      var c := seps[|seps| - 1];
      JoinSpaces(pieces[..n], seps[..|seps| - 1]);
      var head := Join(pieces[..n], seps[..|seps| - 1]);
      SpacesAppend(head, [c]);
      SpacesAppend(head + [c], pieces[n]);
      assert Spaces([c]) == [c] by {
        assert [c][..0] == [];
      }
      assert seps == seps[..|seps| - 1] + [c];
    }
  }

  /** A whitespace-free string has no whitespace to report. */
  lemma {:induction false} SolidSpaces(s: string)
    requires Solid(s)
    ensures Spaces(s) == []
  {
    if s != [] {
      SolidSpaces(s[..|s| - 1]);
    }
  }

  /** The whitespace of a concatenation is that of its parts. */
  lemma {:induction false} SpacesAppend(a: string, b: string)
    ensures Spaces(a + b) == Spaces(a) + Spaces(b)
    decreases |b|
  {
    if b != [] {
      var b' := b[..|b| - 1];
      assert (a + b)[..|a + b| - 1] == a + b';
      SpacesAppend(a, b');
    } else {
      assert a + b == a;
    }
  }
}

/** `splitStringLoop` on the strings of the repository's unit tests. Each
    string is shown to be the join of the expected pieces; as those pieces
    are the only whitespace-free ones that join into it (`JoinSpaces`,
    `JoinUnique`), they are the result. */
module SplitExamples {
  import opened Chars
  import opened Split

  method SentenceSample() returns (r: seq<string>)
    ensures r == ["A", "string", "that", "needs", "to", "be", "split"]
  {
    var str := "A string that needs to be split";
    var want := ["A", "string", "that", "needs", "to", "be", "split"];
    var seps := "      ";
    SentenceJoins(want, seps, str);
    r := SplitStringLoop(str);
    JoinSpaces(want, seps);
    JoinUnique(r, want, seps);
  }

  method WordSample() returns (r: seq<string>)
    ensures r == ["dontsplit"]
  {
    var str := "dontsplit";
    r := SplitStringLoop(str);
    JoinSpaces([str], "");
    JoinUnique(r, [str], "");
  }

  method MixedSample() returns (r: seq<string>)
    ensures r == ["newline", "tab", "white", "space"]
  {
    var str := "newline\ntab\twhite space";
    var want := ["newline", "tab", "white", "space"];
    var seps := "\n\t ";
    MixedJoins(want, seps, str);
    r := SplitStringLoop(str);
    JoinSpaces(want, seps);
    JoinUnique(r, want, seps);
  }

  /** Joining one more piece. */
  lemma JoinStep(pieces: seq<string>, seps: string, c: char, p: string, j: string, j': string)
    requires |pieces| == |seps| + 1 && Join(pieces, seps) == j && j' == j + [c] + p
    ensures Join(pieces + [p], seps + [c]) == j'
  {
    var q := pieces + [p];
    var t := seps + [c];
    assert q[..|q| - 1] == pieces && t[..|t| - 1] == seps;
  }

  /** The first test string is its words joined by single spaces. */
  lemma SentenceJoins(want: seq<string>, seps: string, str: string)
    requires want == ["A", "string", "that", "needs", "to", "be", "split"]
    requires seps == "      " && str == "A string that needs to be split"
    ensures |want| == |seps| + 1 && Join(want, seps) == str
    ensures (forall k :: 0 <= k < |seps| ==> IsSpace(seps[k])) && forall k :: 0 <= k < |want| ==> Solid(want[k])
  {
    var p1, s1 := [want[0]], "";
    JoinStep(p1, s1, ' ', want[1], "A", "A string");
    var p2, s2 := p1 + [want[1]], s1 + " ";
    JoinStep(p2, s2, ' ', want[2], "A string", "A string that");
    var p3, s3 := p2 + [want[2]], s2 + " ";
    JoinStep(p3, s3, ' ', want[3], "A string that", "A string that needs");
    var p4, s4 := p3 + [want[3]], s3 + " ";
    JoinStep(p4, s4, ' ', want[4], "A string that needs", "A string that needs to");
    var p5, s5 := p4 + [want[4]], s4 + " ";
    JoinStep(p5, s5, ' ', want[5], "A string that needs to", "A string that needs to be");
    var p6, s6 := p5 + [want[5]], s5 + " ";
    JoinStep(p6, s6, ' ', want[6], "A string that needs to be", str);
    assert p6 + [want[6]] == want;
    assert s6 + " " == seps;
  }

  /** The third test string: words separated by a newline, a tab and a
      space. */
  lemma MixedJoins(want: seq<string>, seps: string, str: string)
    requires want == ["newline", "tab", "white", "space"]
    requires seps == "\n\t " && str == "newline\ntab\twhite space"
    ensures |want| == |seps| + 1 && Join(want, seps) == str
    ensures (forall k :: 0 <= k < |seps| ==> IsSpace(seps[k])) && forall k :: 0 <= k < |want| ==> Solid(want[k])
  {
    var p1, s1 := [want[0]], "";
    JoinStep(p1, s1, '\n', want[1], "newline", "newline\ntab");
    var p2, s2 := p1 + [want[1]], s1 + "\n";
    JoinStep(p2, s2, '\t', want[2], "newline\ntab", "newline\ntab\twhite");
    var p3, s3 := p2 + [want[2]], s2 + "\t";
    JoinStep(p3, s3, ' ', want[3], "newline\ntab\twhite", str);
    assert p3 + [want[3]] == want;
    assert s3 + " " == seps;
  }
}

/** The three palindrome tests: the normalising one built on `std::reverse`,
    the two-index scan over `std::string::at`, and the recursive one. */
module Palindrome {
  import opened Wrappers
  import opened Seqs
  import opened Chars

  /** `SIZE_MAX` of a 64-bit `size_t`; a string is always shorter. */
  const SizeMax: int := 0xFFFF_FFFF_FFFF_FFFF

  /** What one character contributes to the normalised string. */
  function Keep(c: char): string {
    if IsSpace(c) then [] else [ToUpper(c)]
  }

  /** The string `STLisPalindrome` rebuilds: whitespace dropped, letters upper-cased. */
  function Normalize(s: string): string {
    if |s| == 0 then [] else Normalize(s[..|s| - 1]) + Keep(s[|s| - 1])
  }

  /** Reads the same from both ends. */
  predicate Symmetric(t: string) {
    forall p :: 0 <= p < |t| ==> t[p] == t[|t| - 1 - p]
  }

  /** The first `k` characters match their mirror images. */
  predicate PairsMatch(t: string, k: nat)
    requires k <= |t|
  {
    forall p :: 0 <= p < k ==> t[p] == t[|t| - 1 - p]
  }

  function StlIsPalindrome(s: string): (b: bool)
    ensures b <==> Symmetric(Normalize(s))
  {
    var t := Normalize(s);
    t == Reverse(t)
  }

  // ---------------------------------------------------------------------
  // Normalisation

  lemma {:induction false} NormalizeConcat(a: string, b: string)
    ensures Normalize(a + b) == Normalize(a) + Normalize(b)
    decreases |b|
  {
    if |b| == 0 {
      assert a + b == a;
    } else {
      var b' := b[..|b| - 1];
      assert (a + b)[..|a + b| - 1] == a + b';
      NormalizeConcat(a, b');
    }
  }

  /** The normalised string holds no whitespace and only upper-cased characters. */
  lemma {:induction false} NormalizeClean(s: string)
    ensures |Normalize(s)| <= |s|
    ensures forall p :: 0 <= p < |Normalize(s)| ==> !IsSpace(Normalize(s)[p])
    ensures forall p :: 0 <= p < |Normalize(s)| ==> ToUpper(Normalize(s)[p]) == Normalize(s)[p]
  {
    if |s| > 0 {
      NormalizeClean(s[..|s| - 1]);
    }
  }

  /** Without whitespace, normalising only upper-cases. */
  lemma {:induction false} NormalizeWithoutSpaces(s: string)
    requires forall p :: 0 <= p < |s| ==> !IsSpace(s[p])
    ensures |Normalize(s)| == |s|
    ensures forall p :: 0 <= p < |s| ==> Normalize(s)[p] == ToUpper(s[p])
  {
    if |s| > 0 {
      NormalizeWithoutSpaces(s[..|s| - 1]);
    }
  }

  /** Inserting whitespace anywhere does not change the verdict. */
  lemma StlIgnoresSpace(a: string, c: char, b: string)
    requires IsSpace(c)
    ensures StlIsPalindrome(a + [c] + b) == StlIsPalindrome(a + b)
  {
    assert Normalize(a + [c] + b) == Normalize(a + b) by {
      NormalizeAround(a, c, b);
      NormalizeSingle(c);
      NormalizeConcat(a, b);
    }
  }

  /** Upper-casing a character does not change the verdict. */
  lemma StlIgnoresCase(a: string, c: char, b: string)
    ensures StlIsPalindrome(a + [ToUpper(c)] + b) == StlIsPalindrome(a + [c] + b)
  {
    assert Normalize(a + [ToUpper(c)] + b) == Normalize(a + [c] + b) by {
      NormalizeAround(a, ToUpper(c), b);
      NormalizeAround(a, c, b);
      NormalizeSingle(c);
      NormalizeSingle(ToUpper(c));
    }
  }

  lemma NormalizeAround(a: string, c: char, b: string)
    ensures Normalize(a + [c] + b) == Normalize(a) + Normalize([c]) + Normalize(b)
  {
    NormalizeConcat(a + [c], b);
    NormalizeConcat(a, [c]);
  }

  // ---------------------------------------------------------------------
  // Counting normalised characters on either side of a position

  /** Normalised characters strictly before position `i`. */
  function Left(s: string, i: nat): nat
    requires i <= |s|
  {
    if i == 0 then 0 else Left(s, i - 1) + |Keep(s[i - 1])|
  }

  /** Normalised characters from position `f` on. */
  function Right(s: string, f: nat): nat
    requires f <= |s|
    decreases |s| - f
  {
    if f == |s| then 0 else |Keep(s[f])| + Right(s, f + 1)
  }

  lemma NormalizeSingle(c: char)
    ensures Normalize([c]) == Keep(c)
  {
    assert [c][..0] == [];
  }

  lemma {:induction false} LeftCountsPrefix(s: string, i: nat)
    requires i <= |s|
    ensures Left(s, i) == |Normalize(s[..i])|
  {
    if i > 0 {
      LeftCountsPrefix(s, i - 1);
      assert s[..i][..i - 1] == s[..i - 1];
    }
  }

  lemma {:induction false} RightCountsSuffix(s: string, f: nat)
    requires f <= |s|
    ensures Right(s, f) == |Normalize(s[f..])|
    decreases |s| - f
  {
    if f < |s| {
      RightCountsSuffix(s, f + 1);
      assert s[f..] == [s[f]] + s[f + 1..];
      NormalizeConcat([s[f]], s[f + 1..]);
      NormalizeSingle(s[f]);
    }
  }

  /** Every position splits the normalised string in two. */
  lemma Split(s: string, i: nat)
    requires i <= |s|
    ensures Left(s, i) + Right(s, i) == |Normalize(s)|
  {
    assert s == s[..i] + s[i..];
    NormalizeConcat(s[..i], s[i..]);
    LeftCountsPrefix(s, i);
    RightCountsSuffix(s, i);
  }

  /** How the character at `i` sits in the normalised string. */
  lemma Cell(s: string, i: nat)
    requires i < |s|
    ensures Left(s, i + 1) == Left(s, i) + |Keep(s[i])|
    ensures Right(s, i) == Right(s, i + 1) + |Keep(s[i])|
    ensures Left(s, i) + |Keep(s[i])| + Right(s, i + 1) == |Normalize(s)|
    ensures !IsSpace(s[i]) ==> Normalize(s)[Left(s, i)] == ToUpper(s[i])
  {
    Split(s, i + 1);
    if !IsSpace(s[i]) {
      CellChar(s, i);
    }
  }

  lemma CellChar(s: string, i: nat)
    requires i < |s| && !IsSpace(s[i])
    ensures Left(s, i) < |Normalize(s)|
    ensures Normalize(s)[Left(s, i)] == ToUpper(s[i])
  {
    Around(s, i);
    LeftCountsPrefix(s, i);
    IndexAfter(Normalize(s[..i]), ToUpper(s[i]), Normalize(s[i + 1..]));
  }

  lemma IndexAfter(a: string, c: char, b: string)
    ensures (a + [c] + b)[|a|] == c
  {
  }

  lemma PrefixStep(s: string, i: nat)
    requires i < |s|
    ensures Normalize(s[..i + 1]) == Normalize(s[..i]) + Keep(s[i])
  {
    assert s[..i + 1][..i] == s[..i];
  }

  lemma Around(s: string, i: nat)
    requires i < |s|
    ensures Normalize(s) == Normalize(s[..i]) + Keep(s[i]) + Normalize(s[i + 1..])
  {
    assert s == s[..i + 1] + s[i + 1..];
    NormalizeConcat(s[..i + 1], s[i + 1..]);
    PrefixStep(s, i);
  }

  /** Fewer characters lie before an earlier position. */
  lemma {:induction false} LeftMonotone(s: string, i: nat, i': nat)
    requires i <= i' <= |s|
    ensures Left(s, i) <= Left(s, i')
    decreases i' - i
  {
    if i < i' {
      LeftMonotone(s, i, i' - 1);
    }
  }

  /** Once the matched pairs reach the middle, the whole string is symmetric. */
  lemma CoveredIsSymmetric(t: string, k: nat)
    requires k <= |t| <= 2 * k + 1
    requires PairsMatch(t, k)
    ensures Symmetric(t)
  {
    forall p | 0 <= p < |t|
      ensures t[p] == t[|t| - 1 - p]
    {
      if p >= k && |t| - 1 - p < k {
        var q := |t| - 1 - p;
        assert t[q] == t[|t| - 1 - q];
      }
    }
  }

  // ---------------------------------------------------------------------
  // `isPalindrome` as written: unguarded skipping, `at()` and `size_t` indices

  /** `--j` on a `size_t`. */
  function Dec(j: nat): nat {
    if j == 0 then SizeMax else j - 1
  }

  /** Skip whitespace forward from `i`; running past the end of the string is
      `out_of_range`. */
  function SkipForward(s: string, i: nat): (r: Result<nat>)
    ensures r.Success? ==> i <= r.value < |s| && !IsSpace(s[r.value])
    decreases |s| - i
  {
    if i >= |s| then Failure(OutOfRange)
    else if IsSpace(s[i]) then SkipForward(s, i + 1)
    else Success(i)
  }

  /** Skip whitespace backward from `j`, with the `size_t` wrap below zero; an
      index past the end of the string is `out_of_range`. */
  function SkipBackward(s: string, j: nat): (r: Result<nat>)
    requires |s| < SizeMax
    ensures r.Success? ==> r.value <= j < |s| && !IsSpace(s[r.value])
    decreases if j < |s| then j + 1 else 0
  {
    if j >= |s| then Failure(OutOfRange)
    else if IsSpace(s[j]) then SkipBackward(s, Dec(j))
    else Success(j)
  }

  /** The outer loop of `isPalindrome`, from indices `i` and `j`. */
  function Scan(s: string, i: nat, j: nat): Result<bool>
    requires |s| < SizeMax && i <= |s|
    decreases |s| - i
  {
    if i >= j then Success(true)
    else
      match SkipForward(s, i)
      case Failure(e) => Failure(e)
      case Success(i') =>
        match SkipBackward(s, j)
        case Failure(e) => Failure(e)
        case Success(j') =>
          if ToUpper(s[i']) != ToUpper(s[j']) then Success(false)
          else Scan(s, i' + 1, Dec(j'))
  }

  /** `algo::isPalindrome`; `Failure(OutOfRange)` is the `std::out_of_range` an index
      past either end of the string raises. */
  function IsPalindrome(s: string): Result<bool>
    requires |s| < SizeMax
  {
    if |s| < 1 then Success(true) else Scan(s, 0, |s| - 1)
  }

  lemma {:induction false} SkipForwardKeeps(s: string, i: nat)
    requires i <= |s|
    ensures SkipForward(s, i).Success? ==> Left(s, SkipForward(s, i).value) == Left(s, i)
    decreases |s| - i
  {
    if i < |s| && IsSpace(s[i]) {
      Cell(s, i);
      SkipForwardKeeps(s, i + 1);
    }
  }

  lemma {:induction false} SkipBackwardKeeps(s: string, j: nat)
    requires |s| < SizeMax
    ensures SkipBackward(s, j).Success? ==> Right(s, SkipBackward(s, j).value + 1) == Right(s, j + 1)
    decreases if j < |s| then j + 1 else 0
  {
    if j < |s| && IsSpace(s[j]) {
      if j > 0 {
        Cell(s, j - 1);
        Cell(s, j);
      }
      SkipBackwardKeeps(s, Dec(j));
    }
  }

  /** What holds at the head of every round of the outer loop: the `k` characters
      consumed on the left match the `k` consumed on the right (unless `j` has
      wrapped round), and every pair compared so far matched. */
  predicate ScanInvariant(s: string, i: nat, j: nat) {
    i <= |s| < SizeMax && (j < |s| || j == SizeMax) &&
    Left(s, i) <= |Normalize(s)| &&
    PairsMatch(Normalize(s), Left(s, i)) &&
    (j < |s| ==> Left(s, i) == Right(s, j + 1))
  }

  lemma {:induction false} ScanSound(s: string, i: nat, j: nat)
    requires ScanInvariant(s, i, j)
    ensures Scan(s, i, j).Success? ==> Scan(s, i, j).value == Symmetric(Normalize(s))
    decreases |s| - i
  {
    if i >= j {
      ScanExit(s, i, j);
    } else if SkipForward(s, i).Success? && SkipBackward(s, j).Success? {
      var i' := SkipForward(s, i).value;
      var j' := SkipBackward(s, j).value;
      if ToUpper(s[i']) == ToUpper(s[j']) {
        RoundMatched(s, i, j);
        assert Scan(s, i, j) == Scan(s, i' + 1, Dec(j'));
        ScanSound(s, i' + 1, Dec(j'));
      } else {
        RoundMismatched(s, i, j);
        assert Scan(s, i, j) == Success(false);
      }
    } else {
      assert Scan(s, i, j).Failure?;
    }
  }

  /** A round of the outer loop whose pair matched keeps the invariant. */
  lemma RoundMatched(s: string, i: nat, j: nat)
    requires ScanInvariant(s, i, j) && i < j
    requires SkipForward(s, i).Success? && SkipBackward(s, j).Success?
    requires ToUpper(s[SkipForward(s, i).value]) == ToUpper(s[SkipBackward(s, j).value])
    ensures ScanInvariant(s, SkipForward(s, i).value + 1, Dec(SkipBackward(s, j).value))
  {
    SkipForwardKeeps(s, i);
    SkipBackwardKeeps(s, j);
    PairMatches(s, SkipForward(s, i).value, SkipBackward(s, j).value, Left(s, i));
  }

  /** Two non-blanks, `k` characters in from either end, that match. */
  lemma PairMatches(s: string, i': nat, j': nat, k: nat)
    requires |s| < SizeMax && k <= |Normalize(s)| && PairsMatch(Normalize(s), k)
    requires i' < |s| && !IsSpace(s[i']) && Left(s, i') == k
    requires j' < |s| && !IsSpace(s[j']) && Right(s, j' + 1) == k
    requires ToUpper(s[i']) == ToUpper(s[j'])
    ensures ScanInvariant(s, i' + 1, Dec(j'))
  {
    LeftCell(s, i', k);
    MirrorCell(s, j', k);
    ExtendPairs(Normalize(s), k);
    if j' > 0 {
      RightStep(s, j', k);
    }
  }

  /** A round whose pair differs shows the normalised string is not symmetric. */
  lemma RoundMismatched(s: string, i: nat, j: nat)
    requires ScanInvariant(s, i, j) && i < j
    requires SkipForward(s, i).Success? && SkipBackward(s, j).Success?
    requires ToUpper(s[SkipForward(s, i).value]) != ToUpper(s[SkipBackward(s, j).value])
    ensures !Symmetric(Normalize(s))
  {
    SkipForwardKeeps(s, i);
    SkipBackwardKeeps(s, j);
    PairDiffers(s, SkipForward(s, i).value, SkipBackward(s, j).value, Left(s, i));
  }

  /** Two non-blanks, `k` characters in from either end, that differ. */
  lemma PairDiffers(s: string, i': nat, j': nat, k: nat)
    requires i' < |s| && !IsSpace(s[i']) && Left(s, i') == k
    requires j' < |s| && !IsSpace(s[j']) && Right(s, j' + 1) == k
    requires ToUpper(s[i']) != ToUpper(s[j'])
    ensures !Symmetric(Normalize(s))
  {
    LeftCell(s, i', k);
    MirrorCell(s, j', k);
    MismatchedPair(Normalize(s), k);
  }

  /** The outer loop stops with the indices met or crossed: every pair was compared. */
  lemma ScanExit(s: string, i: nat, j: nat)
    requires ScanInvariant(s, i, j) && i >= j
    ensures Symmetric(Normalize(s))
  {
    assert j < |s|;
    Cell(s, j);
    LeftMonotone(s, j, i);
    CoveredIsSymmetric(Normalize(s), Left(s, i));
  }

  /** The left index at a non-blank with `k` characters consumed reads the `k`-th
      normalised character. */
  lemma LeftCell(s: string, i: nat, k: nat)
    requires i < |s| && !IsSpace(s[i]) && Left(s, i) == k
    ensures k < |Normalize(s)| && Normalize(s)[k] == ToUpper(s[i])
    ensures Left(s, i + 1) == k + 1
  {
    Cell(s, i);
  }

  /** The right index at a non-blank with `k` characters consumed reads the `k`-th
      normalised character from the end. */
  lemma MirrorCell(s: string, j: nat, k: nat)
    requires j < |s| && !IsSpace(s[j]) && Right(s, j + 1) == k
    ensures k < |Normalize(s)| && Normalize(s)[|Normalize(s)| - 1 - k] == ToUpper(s[j])
  {
    Cell(s, j);
  }

  lemma RightStep(s: string, j: nat, k: nat)
    requires 0 < j < |s| && !IsSpace(s[j]) && Right(s, j + 1) == k
    ensures Right(s, j) == k + 1
  {
    Cell(s, j);
  }

  lemma ExtendPairs(t: string, k: nat)
    requires k < |t| && PairsMatch(t, k) && t[k] == t[|t| - 1 - k]
    ensures PairsMatch(t, k + 1)
  {
  }

  lemma MismatchedPair(t: string, k: nat)
    requires k < |t| && t[k] != t[|t| - 1 - k]
    ensures !Symmetric(t)
  {
  }

  /** When `isPalindrome` returns instead of throwing, it agrees with `STLisPalindrome`. */
  lemma IsPalindromeSound(s: string)
    requires |s| < SizeMax
    ensures IsPalindrome(s).Success? ==> IsPalindrome(s).value == StlIsPalindrome(s)
  {
    if |s| >= 1 {
      Split(s, |s|);
      assert s[|s|..] == [];
      ScanSound(s, 0, |s| - 1);
    }
  }

  lemma {:induction false} ScanWithoutSpaces(s: string, i: nat, j: nat)
    requires |s| < SizeMax && i <= |s| && j < |s| && i + j == |s| - 1
    requires forall p :: 0 <= p < |s| ==> !IsSpace(s[p])
    ensures Scan(s, i, j).Success?
    decreases |s| - i
  {
    if i < j {
      assert SkipForward(s, i) == Success(i);
      assert SkipBackward(s, j) == Success(j);
      if ToUpper(s[i]) == ToUpper(s[j]) {
        ScanWithoutSpaces(s, i + 1, j - 1);
      }
    }
  }

  /** On a string without whitespace `isPalindrome` never throws, and so answers
      as `STLisPalindrome` does. */
  lemma IsPalindromeWithoutSpaces(s: string)
    requires |s| < SizeMax
    requires forall p :: 0 <= p < |s| ==> !IsSpace(s[p])
    ensures IsPalindrome(s) == Success(StlIsPalindrome(s))
  {
    if |s| >= 1 {
      ScanWithoutSpaces(s, 0, |s| - 1);
    }
    IsPalindromeSound(s);
  }

  /** A trailing blank: the last pair compared moves `j` below zero, it wraps to
      `SIZE_MAX`, the loop goes on, and skipping the blank reads past the end. */
  lemma TrailingSpaceThrows()
    ensures IsPalindrome("a ") == Failure(OutOfRange)
    ensures StlIsPalindrome("a ")
    ensures CheckedIsPalindrome("a ")
  {
    var s := "a ";
    assert SkipForward(s, 0) == Success(0);
    assert SkipBackward(s, 0) == Success(0);
    assert SkipBackward(s, 1) == Success(0);
    assert SkipForward(s, 2) == Failure(OutOfRange);
    assert SkipForward(s, 1) == Failure(OutOfRange);
    assert Scan(s, 1, SizeMax) == Failure(OutOfRange);
    assert Normalize(s) == "A" by {
      assert s[..1] == "a";
      assert Normalize("a") == Normalize("a"[..0]) + Keep('a');
    }
  }

  /** Two or more blanks and nothing else: the left index runs off the end. */
  lemma AllBlanksThrow()
    ensures IsPalindrome("  ") == Failure(OutOfRange)
  {
    var s := "  ";
    assert SkipForward(s, 2) == Failure(OutOfRange);
    assert SkipForward(s, 1) == Failure(OutOfRange);
  }

  // ---------------------------------------------------------------------
  // The scan with both indices kept inside `[i, j]`

  /** The two-index scan with every skip guarded by `i < j`, so that no index
      leaves the string. */
  function CheckedScan(s: string, i: nat, j: int): bool
    requires i <= |s| && -1 <= j < |s| && i <= j + 1
    decreases j + 1 - i
  {
    if i >= j then true
    else if IsSpace(s[i]) then CheckedScan(s, i + 1, j)
    else if IsSpace(s[j]) then CheckedScan(s, i, j - 1)
    else if ToUpper(s[i]) != ToUpper(s[j]) then false
    else CheckedScan(s, i + 1, j - 1)
  }

  predicate CheckedInvariant(s: string, i: nat, j: int)
  {
    i <= |s| && -1 <= j < |s| && i <= j + 1 &&
    Left(s, i) <= |Normalize(s)| &&
    PairsMatch(Normalize(s), Left(s, i)) &&
    Left(s, i) == Right(s, j + 1)
  }

  lemma {:induction false} CheckedScanSound(s: string, i: nat, j: int)
    requires CheckedInvariant(s, i, j)
    ensures CheckedScan(s, i, j) == Symmetric(Normalize(s))
    decreases j + 1 - i
  {
    if i >= j {
      CheckedExit(s, i, j);
    } else if IsSpace(s[i]) {
      CheckedBlanks(s, i, j);
      CheckedScanSound(s, i + 1, j);
    } else if IsSpace(s[j]) {
      CheckedBlanks(s, i, j);
      CheckedScanSound(s, i, j - 1);
    } else if ToUpper(s[i]) == ToUpper(s[j]) {
      CheckedMatched(s, i, j);
      CheckedScanSound(s, i + 1, j - 1);
    } else {
      PairDiffers(s, i, j, Left(s, i));
    }
  }

  lemma CheckedExit(s: string, i: nat, j: int)
    requires CheckedInvariant(s, i, j) && i >= j
    ensures Symmetric(Normalize(s))
  {
    if i == j {
      Cell(s, i);
    } else {
      Split(s, i);
    }
    CoveredIsSymmetric(Normalize(s), Left(s, i));
  }

  /** Stepping either index over a blank keeps the invariant. */
  lemma CheckedBlanks(s: string, i: nat, j: int)
    requires CheckedInvariant(s, i, j) && i < j
    ensures IsSpace(s[i]) ==> CheckedInvariant(s, i + 1, j)
    ensures IsSpace(s[j]) ==> CheckedInvariant(s, i, j - 1)
  {
    Cell(s, i);
    Cell(s, j);
  }

  lemma CheckedMatched(s: string, i: nat, j: int)
    requires CheckedInvariant(s, i, j) && i < j
    requires !IsSpace(s[i]) && !IsSpace(s[j]) && ToUpper(s[i]) == ToUpper(s[j])
    ensures CheckedInvariant(s, i + 1, j - 1)
  {
    var k := Left(s, i);
    LeftCell(s, i, k);
    MirrorCell(s, j, k);
    ExtendPairs(Normalize(s), k);
    RightStep(s, j, k);
  }

  /** `isPalindrome` with its skips bounded by the other index: never throws and
      always answers as `STLisPalindrome` does. */
  function CheckedIsPalindrome(s: string): (b: bool)
    ensures b == StlIsPalindrome(s)
  {
    Split(s, |s|);
    assert s[|s|..] == [];
    CheckedScanSound(s, 0, |s| - 1);
    if |s| < 1 then true else CheckedScan(s, 0, |s| - 1)
  }

  // ---------------------------------------------------------------------
  // `risPalindrome`

  /** Each character matches its mirror image, ignoring case only. */
  predicate CaseBlindSymmetric(s: string) {
    forall p :: 0 <= p < |s| ==> ToUpper(s[p]) == ToUpper(s[|s| - 1 - p])
  }

  /** `algo::risPalindrome`: compares end characters case-blind and recurses on
      the inside; whitespace is compared like any other character. */
  function RisPalindrome(s: string): (b: bool)
    ensures b <==> CaseBlindSymmetric(s)
  {
    if |s| < 2 then true
    else
      CaseBlindPeel(s);
      if ToUpper(s[0]) != ToUpper(s[|s| - 1]) then false
      else RisPalindrome(s[1..|s| - 1])
  }

  /** Symmetry of a string is symmetry of its ends plus symmetry of the inside. */
  lemma CaseBlindPeel(s: string)
    requires |s| >= 2
    ensures CaseBlindSymmetric(s) <==>
      ToUpper(s[0]) == ToUpper(s[|s| - 1]) && CaseBlindSymmetric(s[1..|s| - 1])
  {
    var inner := s[1..|s| - 1];
    if ToUpper(s[0]) == ToUpper(s[|s| - 1]) && CaseBlindSymmetric(inner) {
      forall p | 0 <= p < |s|
        ensures ToUpper(s[p]) == ToUpper(s[|s| - 1 - p])
      {
        if 0 < p < |s| - 1 {
          assert s[p] == inner[p - 1];
          assert s[|s| - 1 - p] == inner[|inner| - 1 - (p - 1)];
        }
      }
    }
    if CaseBlindSymmetric(s) {
      forall p | 0 <= p < |inner|
        ensures ToUpper(inner[p]) == ToUpper(inner[|inner| - 1 - p])
      {
        assert inner[p] == s[p + 1];
        assert inner[|inner| - 1 - p] == s[|s| - 1 - (p + 1)];
      }
    }
  }

  /** On a string without whitespace the recursive test agrees with `STLisPalindrome`. */
  lemma RisAgreesWithoutSpaces(s: string)
    requires forall p :: 0 <= p < |s| ==> !IsSpace(s[p])
    ensures RisPalindrome(s) == StlIsPalindrome(s)
  {
    NormalizeWithoutSpaces(s);
    var t := Normalize(s);
    if Symmetric(t) {
      forall p | 0 <= p < |s|
        ensures ToUpper(s[p]) == ToUpper(s[|s| - 1 - p])
      {
        assert t[p] == t[|t| - 1 - p];
      }
    }
    if CaseBlindSymmetric(s) {
      forall p | 0 <= p < |t|
        ensures t[p] == t[|t| - 1 - p]
      {
        assert ToUpper(s[p]) == ToUpper(s[|s| - 1 - p]);
      }
    }
  }

  /** Spaces count for the recursive test: "ab a" is a palindrome once blanks are
      ignored, but not to `risPalindrome`. */
  lemma RisSeesSpaces()
    ensures !RisPalindrome("ab a")
    ensures StlIsPalindrome("ab a")
  {
    var s := "ab a";
    assert ToUpper(s[1]) != ToUpper(s[2]);
    assert Normalize(s) == "ABA" by {
      assert Normalize("a") == Normalize("a"[..0]) + Keep('a');
      assert "ab"[..1] == "a";
      assert Normalize("ab") == "AB";
      assert "ab "[..2] == "ab";
      assert Normalize("ab ") == "AB";
      assert s[..3] == "ab ";
    }
  }
}

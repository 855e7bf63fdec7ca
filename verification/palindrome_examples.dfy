/** The palindrome checks on the strings of the repository's unit tests.

    A string literal is taken apart one character at a time: the `...Chars`
    lemmas state the characters of a literal in short runs, and the `...Scan`
    lemmas replay the rounds of `isPalindrome`'s two-index scan over any
    string with those characters. Strings without whitespace go through
    `IsPalindromeWithoutSpaces` instead, and `STLisPalindrome`'s answers
    follow from `isPalindrome`'s by `IsPalindromeSound`. */
module PalindromeExamples {
  import opened Wrappers
  import opened Chars
  import opened Palindrome

  /** One round of the scan: both skips land on `i'` and `j'`, whose
      characters match up to case, and the scan continues inside them. */
  lemma Round(s: string, i: nat, j: nat, i': nat, j': nat)
    requires |s| < SizeMax && i < j < |s|
    requires i <= i' < |s| && SkipForward(s, i) == Success(i')
    requires SkipBackward(s, j) == Success(j') && ToUpper(s[i']) == ToUpper(s[j'])
    ensures Scan(s, i, j) == Scan(s, i' + 1, Dec(j'))
  {
  }

  /** The forward skip steps over a blank. */
  lemma Blank(s: string, i: nat)
    requires i < |s| && IsSpace(s[i])
    ensures SkipForward(s, i) == SkipForward(s, i + 1)
  {
  }

  /** The backward skip steps over a blank. */
  lemma BlankBack(s: string, j: nat)
    requires |s| < SizeMax && 0 < j < |s| && IsSpace(s[j])
    ensures SkipBackward(s, j) == SkipBackward(s, j - 1)
  {
  }

  // ---------------------------------------------------------------------
  // Palindromes the two-index scan accepts

  // "racecar"

  lemma RacecarChars0()
    ensures |"racecar"| == 7 && "racecar"[0] == 'r' && "racecar"[1] == 'a' &&
      "racecar"[2] == 'c' && "racecar"[3] == 'e' && "racecar"[4] == 'c' &&
      "racecar"[5] == 'a' && "racecar"[6] == 'r'
  {
  }

  lemma RacecarScan(s: string)
    requires |s| == 7 && s[0] == 'r' && s[1] == 'a' && s[2] == 'c' && s[3] == 'e' && s[4] == 'c' &&
      s[5] == 'a' && s[6] == 'r'
    ensures IsPalindrome(s) == Success(true)
  {
    Round(s, 0, 6, 0, 6);
    Round(s, 1, 5, 1, 5);
    Round(s, 2, 4, 2, 4);
  }

  lemma Racecar()
    ensures IsPalindrome("racecar") == Success(true)
  {
    RacecarChars0();
    RacecarScan("racecar");
  }

  // "A man a plan a canal Panama"

  lemma PanamaChars0()
    ensures |"A man a plan a canal Panama"| == 27 && "A man a plan a canal Panama"[0] == 'A' &&
      "A man a plan a canal Panama"[1] == ' ' && "A man a plan a canal Panama"[2] == 'm' &&
      "A man a plan a canal Panama"[3] == 'a' && "A man a plan a canal Panama"[4] == 'n' &&
      "A man a plan a canal Panama"[5] == ' ' && "A man a plan a canal Panama"[6] == 'a'
  {
  }

  lemma PanamaChars7()
    ensures "A man a plan a canal Panama"[7] == ' ' && "A man a plan a canal Panama"[8] == 'p' &&
      "A man a plan a canal Panama"[9] == 'l' && "A man a plan a canal Panama"[10] == 'a' &&
      "A man a plan a canal Panama"[11] == 'n' && "A man a plan a canal Panama"[12] == ' ' &&
      "A man a plan a canal Panama"[13] == 'a'
  {
  }

  lemma PanamaChars14()
    ensures "A man a plan a canal Panama"[14] == ' ' && "A man a plan a canal Panama"[15] == 'c' &&
      "A man a plan a canal Panama"[16] == 'a' && "A man a plan a canal Panama"[17] == 'n' &&
      "A man a plan a canal Panama"[18] == 'a' && "A man a plan a canal Panama"[19] == 'l' &&
      "A man a plan a canal Panama"[20] == ' '
  {
  }

  lemma PanamaChars21()
    ensures "A man a plan a canal Panama"[21] == 'P' && "A man a plan a canal Panama"[22] == 'a' &&
      "A man a plan a canal Panama"[23] == 'n' && "A man a plan a canal Panama"[24] == 'a' &&
      "A man a plan a canal Panama"[25] == 'm' && "A man a plan a canal Panama"[26] == 'a'
  {
  }

  lemma PanamaOuter(s: string)
    requires |s| == 27 && s[0] == 'A' && s[1] == ' ' && s[2] == 'm' && s[3] == 'a' && s[4] == 'n' &&
      s[5] == ' ' && s[6] == 'a' && s[7] == ' ' && s[8] == 'p' && s[9] == 'l' && s[10] == 'a' &&
      s[11] == 'n' && s[12] == ' ' && s[13] == 'a' && s[14] == ' ' && s[15] == 'c' && s[16] == 'a' &&
      s[17] == 'n' && s[18] == 'a' && s[19] == 'l' && s[20] == ' ' && s[21] == 'P' && s[22] == 'a' &&
      s[23] == 'n' && s[24] == 'a' && s[25] == 'm' && s[26] == 'a'
    ensures IsPalindrome(s) == Scan(s, 5, 22)
  {
    Round(s, 0, 26, 0, 26);
    Blank(s, 1);
    Round(s, 1, 25, 2, 25);
    Round(s, 3, 24, 3, 24);
    Round(s, 4, 23, 4, 23);
  }

  lemma PanamaInner(s: string)
    requires |s| == 27 && s[0] == 'A' && s[1] == ' ' && s[2] == 'm' && s[3] == 'a' && s[4] == 'n' &&
      s[5] == ' ' && s[6] == 'a' && s[7] == ' ' && s[8] == 'p' && s[9] == 'l' && s[10] == 'a' &&
      s[11] == 'n' && s[12] == ' ' && s[13] == 'a' && s[14] == ' ' && s[15] == 'c' && s[16] == 'a' &&
      s[17] == 'n' && s[18] == 'a' && s[19] == 'l' && s[20] == ' ' && s[21] == 'P' && s[22] == 'a' &&
      s[23] == 'n' && s[24] == 'a' && s[25] == 'm' && s[26] == 'a'
    ensures Scan(s, 5, 22) == Success(true)
  {
    Blank(s, 5);
    Round(s, 5, 22, 6, 22);
    Blank(s, 7);
    Round(s, 7, 21, 8, 21);
    BlankBack(s, 20);
    Round(s, 9, 20, 9, 19);
    Round(s, 10, 18, 10, 18);
    Round(s, 11, 17, 11, 17);
    Blank(s, 12);
    Round(s, 12, 16, 13, 16);
    Blank(s, 14);
    Round(s, 14, 15, 15, 15);
  }

  lemma Panama()
    ensures IsPalindrome("A man a plan a canal Panama") == Success(true)
  {
    PanamaChars0();
    PanamaChars7();
    PanamaChars14();
    PanamaChars21();
    PanamaOuter("A man a plan a canal Panama");
    PanamaInner("A man a plan a canal Panama");
  }

  // "No lemon no melon"

  lemma LemonChars0()
    ensures |"No lemon no melon"| == 17 && "No lemon no melon"[0] == 'N' &&
      "No lemon no melon"[1] == 'o' && "No lemon no melon"[2] == ' ' &&
      "No lemon no melon"[3] == 'l' && "No lemon no melon"[4] == 'e' &&
      "No lemon no melon"[5] == 'm' && "No lemon no melon"[6] == 'o'
  {
  }

  lemma LemonChars7()
    ensures "No lemon no melon"[7] == 'n' && "No lemon no melon"[8] == ' ' &&
      "No lemon no melon"[9] == 'n' && "No lemon no melon"[10] == 'o' &&
      "No lemon no melon"[11] == ' ' && "No lemon no melon"[12] == 'm' &&
      "No lemon no melon"[13] == 'e'
  {
  }

  lemma LemonChars14()
    ensures "No lemon no melon"[14] == 'l' && "No lemon no melon"[15] == 'o' &&
      "No lemon no melon"[16] == 'n'
  {
  }

  lemma LemonScan(s: string)
    requires |s| == 17 && s[0] == 'N' && s[1] == 'o' && s[2] == ' ' && s[3] == 'l' && s[4] == 'e' &&
      s[5] == 'm' && s[6] == 'o' && s[7] == 'n' && s[8] == ' ' && s[9] == 'n' && s[10] == 'o' &&
      s[11] == ' ' && s[12] == 'm' && s[13] == 'e' && s[14] == 'l' && s[15] == 'o' && s[16] == 'n'
    ensures IsPalindrome(s) == Success(true)
  {
    Round(s, 0, 16, 0, 16);
    Round(s, 1, 15, 1, 15);
    Blank(s, 2);
    Round(s, 2, 14, 3, 14);
    Round(s, 4, 13, 4, 13);
    Round(s, 5, 12, 5, 12);
    BlankBack(s, 11);
    Round(s, 6, 11, 6, 10);
    Round(s, 7, 9, 7, 9);
  }

  lemma Lemon()
    ensures IsPalindrome("No lemon no melon") == Success(true)
  {
    LemonChars0();
    LemonChars7();
    LemonChars14();
    LemonScan("No lemon no melon");
  }

  // "A    man a plan a      canal Panama"

  lemma WidePanamaChars0()
    ensures |"A    man a plan a      canal Panama"| == 35 && "A    man a plan a      canal Panama"[0] == 'A' &&
      "A    man a plan a      canal Panama"[1] == ' ' && "A    man a plan a      canal Panama"[2] == ' ' &&
      "A    man a plan a      canal Panama"[3] == ' ' && "A    man a plan a      canal Panama"[4] == ' ' &&
      "A    man a plan a      canal Panama"[5] == 'm' && "A    man a plan a      canal Panama"[6] == 'a'
  {
  }

  lemma WidePanamaChars7()
    ensures "A    man a plan a      canal Panama"[7] == 'n' && "A    man a plan a      canal Panama"[8] == ' ' &&
      "A    man a plan a      canal Panama"[9] == 'a' && "A    man a plan a      canal Panama"[10] == ' ' &&
      "A    man a plan a      canal Panama"[11] == 'p' && "A    man a plan a      canal Panama"[12] == 'l' &&
      "A    man a plan a      canal Panama"[13] == 'a'
  {
  }

  lemma WidePanamaChars14()
    ensures "A    man a plan a      canal Panama"[14] == 'n' && "A    man a plan a      canal Panama"[15] == ' ' &&
      "A    man a plan a      canal Panama"[16] == 'a' && "A    man a plan a      canal Panama"[17] == ' ' &&
      "A    man a plan a      canal Panama"[18] == ' ' && "A    man a plan a      canal Panama"[19] == ' ' &&
      "A    man a plan a      canal Panama"[20] == ' '
  {
  }

  lemma WidePanamaChars21()
    ensures "A    man a plan a      canal Panama"[21] == ' ' && "A    man a plan a      canal Panama"[22] == ' ' &&
      "A    man a plan a      canal Panama"[23] == 'c' && "A    man a plan a      canal Panama"[24] == 'a' &&
      "A    man a plan a      canal Panama"[25] == 'n' && "A    man a plan a      canal Panama"[26] == 'a' &&
      "A    man a plan a      canal Panama"[27] == 'l'
  {
  }

  lemma WidePanamaChars28()
    ensures "A    man a plan a      canal Panama"[28] == ' ' && "A    man a plan a      canal Panama"[29] == 'P' &&
      "A    man a plan a      canal Panama"[30] == 'a' && "A    man a plan a      canal Panama"[31] == 'n' &&
      "A    man a plan a      canal Panama"[32] == 'a' && "A    man a plan a      canal Panama"[33] == 'm' &&
      "A    man a plan a      canal Panama"[34] == 'a'
  {
  }

  lemma WidePanamaOuter(s: string)
    requires |s| == 35 && s[0] == 'A' && s[1] == ' ' && s[2] == ' ' && s[3] == ' ' && s[4] == ' ' &&
      s[5] == 'm' && s[6] == 'a' && s[7] == 'n' && s[8] == ' ' && s[9] == 'a' && s[10] == ' ' &&
      s[11] == 'p' && s[12] == 'l' && s[13] == 'a' && s[14] == 'n' && s[15] == ' ' && s[16] == 'a' &&
      s[17] == ' ' && s[18] == ' ' && s[19] == ' ' && s[20] == ' ' && s[21] == ' ' && s[22] == ' ' &&
      s[23] == 'c' && s[24] == 'a' && s[25] == 'n' && s[26] == 'a' && s[27] == 'l' && s[28] == ' ' &&
      s[29] == 'P' && s[30] == 'a' && s[31] == 'n' && s[32] == 'a' && s[33] == 'm' && s[34] == 'a'
    ensures IsPalindrome(s) == Scan(s, 10, 29)
  {
    Round(s, 0, 34, 0, 34);
    Blank(s, 1);
    Blank(s, 2);
    Blank(s, 3);
    Blank(s, 4);
    Round(s, 1, 33, 5, 33);
    Round(s, 6, 32, 6, 32);
    Round(s, 7, 31, 7, 31);
    Blank(s, 8);
    Round(s, 8, 30, 9, 30);
  }

  lemma WidePanamaInner(s: string)
    requires |s| == 35 && s[0] == 'A' && s[1] == ' ' && s[2] == ' ' && s[3] == ' ' && s[4] == ' ' &&
      s[5] == 'm' && s[6] == 'a' && s[7] == 'n' && s[8] == ' ' && s[9] == 'a' && s[10] == ' ' &&
      s[11] == 'p' && s[12] == 'l' && s[13] == 'a' && s[14] == 'n' && s[15] == ' ' && s[16] == 'a' &&
      s[17] == ' ' && s[18] == ' ' && s[19] == ' ' && s[20] == ' ' && s[21] == ' ' && s[22] == ' ' &&
      s[23] == 'c' && s[24] == 'a' && s[25] == 'n' && s[26] == 'a' && s[27] == 'l' && s[28] == ' ' &&
      s[29] == 'P' && s[30] == 'a' && s[31] == 'n' && s[32] == 'a' && s[33] == 'm' && s[34] == 'a'
    ensures Scan(s, 10, 29) == Success(true)
  {
    Blank(s, 10);
    Round(s, 10, 29, 11, 29);
    BlankBack(s, 28);
    Round(s, 12, 28, 12, 27);
    Round(s, 13, 26, 13, 26);
    Round(s, 14, 25, 14, 25);
    Blank(s, 15);
    Round(s, 15, 24, 16, 24);
    Blank(s, 17);
    Blank(s, 18);
    Blank(s, 19);
    Blank(s, 20);
    Blank(s, 21);
    Blank(s, 22);
    Round(s, 17, 23, 23, 23);
  }

  lemma WidePanama()
    ensures IsPalindrome("A    man a plan a      canal Panama") == Success(true)
  {
    WidePanamaChars0();
    WidePanamaChars7();
    WidePanamaChars14();
    WidePanamaChars21();
    WidePanamaChars28();
    WidePanamaOuter("A    man a plan a      canal Panama");
    WidePanamaInner("A    man a plan a      canal Panama");
  }

  // "deified"

  lemma DeifiedChars0()
    ensures |"deified"| == 7 && "deified"[0] == 'd' && "deified"[1] == 'e' &&
      "deified"[2] == 'i' && "deified"[3] == 'f' && "deified"[4] == 'i' &&
      "deified"[5] == 'e' && "deified"[6] == 'd'
  {
  }

  lemma DeifiedScan(s: string)
    requires |s| == 7 && s[0] == 'd' && s[1] == 'e' && s[2] == 'i' && s[3] == 'f' && s[4] == 'i' &&
      s[5] == 'e' && s[6] == 'd'
    ensures IsPalindrome(s) == Success(true)
  {
    Round(s, 0, 6, 0, 6);
    Round(s, 1, 5, 1, 5);
    Round(s, 2, 4, 2, 4);
  }

  lemma Deified()
    ensures IsPalindrome("deified") == Success(true)
  {
    DeifiedChars0();
    DeifiedScan("deified");
  }

  // "12321"

  lemma MirroredChars0()
    ensures |"12321"| == 5 && "12321"[0] == '1' && "12321"[1] == '2' &&
      "12321"[2] == '3' && "12321"[3] == '2' && "12321"[4] == '1'
  {
  }

  lemma MirroredScan(s: string)
    requires |s| == 5 && s[0] == '1' && s[1] == '2' && s[2] == '3' && s[3] == '2' && s[4] == '1'
    ensures IsPalindrome(s) == Success(true)
  {
    Round(s, 0, 4, 0, 4);
    Round(s, 1, 3, 1, 3);
  }

  lemma Mirrored()
    ensures IsPalindrome("12321") == Success(true)
  {
    MirroredChars0();
    MirroredScan("12321");
  }
  // ---------------------------------------------------------------------
  // Strings the scan rejects

  lemma Hello()
    ensures IsPalindrome("hello") == Success(false)
  {
    IsPalindromeWithoutSpaces("hello");
  }

  lemma World()
    ensures IsPalindrome("world") == Success(false)
  {
    IsPalindromeWithoutSpaces("world");
  }

  lemma Digits()
    ensures IsPalindrome("12345") == Success(false)
  {
    IsPalindromeWithoutSpaces("12345");
  }

  lemma Abcd()
    ensures IsPalindrome("abcd") == Success(false)
  {
    IsPalindromeWithoutSpaces("abcd");
  }

  // ---------------------------------------------------------------------
  // Case-blind mirror images, whitespace included

  // "level"

  lemma LevelChars0()
    ensures |"level"| == 5 && "level"[0] == 'l' && "level"[1] == 'e' &&
      "level"[2] == 'v' && "level"[3] == 'e' && "level"[4] == 'l'
  {
  }

  lemma LevelMirror(s: string)
    requires |s| == 5 && s[0] == 'l' && s[1] == 'e' && s[2] == 'v' && s[3] == 'e' && s[4] == 'l'
    ensures CaseBlindSymmetric(s)
  {
    forall p | 0 <= p < |s|
      ensures ToUpper(s[p]) == ToUpper(s[|s| - 1 - p])
    {
      assert p == 0 || p == 1 || p == 2 || p == 3 || p == 4;
    }
  }

  lemma Level()
    ensures CaseBlindSymmetric("level")
  {
    LevelChars0();
    LevelMirror("level");
  }

  // "Able was I ere I saw Elba"

  lemma ElbaChars0()
    ensures |"Able was I ere I saw Elba"| == 25 && "Able was I ere I saw Elba"[0] == 'A' &&
      "Able was I ere I saw Elba"[1] == 'b' && "Able was I ere I saw Elba"[2] == 'l' &&
      "Able was I ere I saw Elba"[3] == 'e' && "Able was I ere I saw Elba"[4] == ' ' &&
      "Able was I ere I saw Elba"[5] == 'w' && "Able was I ere I saw Elba"[6] == 'a'
  {
  }

  lemma ElbaChars7()
    ensures "Able was I ere I saw Elba"[7] == 's' && "Able was I ere I saw Elba"[8] == ' ' &&
      "Able was I ere I saw Elba"[9] == 'I' && "Able was I ere I saw Elba"[10] == ' ' &&
      "Able was I ere I saw Elba"[11] == 'e' && "Able was I ere I saw Elba"[12] == 'r' &&
      "Able was I ere I saw Elba"[13] == 'e'
  {
  }

  lemma ElbaChars14()
    ensures "Able was I ere I saw Elba"[14] == ' ' && "Able was I ere I saw Elba"[15] == 'I' &&
      "Able was I ere I saw Elba"[16] == ' ' && "Able was I ere I saw Elba"[17] == 's' &&
      "Able was I ere I saw Elba"[18] == 'a' && "Able was I ere I saw Elba"[19] == 'w' &&
      "Able was I ere I saw Elba"[20] == ' '
  {
  }

  lemma ElbaChars21()
    ensures "Able was I ere I saw Elba"[21] == 'E' && "Able was I ere I saw Elba"[22] == 'l' &&
      "Able was I ere I saw Elba"[23] == 'b' && "Able was I ere I saw Elba"[24] == 'a'
  {
  }

  lemma ElbaMirror(s: string)
    requires |s| == 25 && s[0] == 'A' && s[1] == 'b' && s[2] == 'l' && s[3] == 'e' && s[4] == ' ' &&
      s[5] == 'w' && s[6] == 'a' && s[7] == 's' && s[8] == ' ' && s[9] == 'I' && s[10] == ' ' &&
      s[11] == 'e' && s[12] == 'r' && s[13] == 'e' && s[14] == ' ' && s[15] == 'I' && s[16] == ' ' &&
      s[17] == 's' && s[18] == 'a' && s[19] == 'w' && s[20] == ' ' && s[21] == 'E' && s[22] == 'l' &&
      s[23] == 'b' && s[24] == 'a'
    ensures CaseBlindSymmetric(s)
  {
    forall p | 0 <= p < |s|
      ensures ToUpper(s[p]) == ToUpper(s[|s| - 1 - p])
    {
      assert p == 0 || p == 1 || p == 2 || p == 3 || p == 4 || p == 5 || p == 6 || p == 7 || p == 8 ||
        p == 9 || p == 10 || p == 11 || p == 12 || p == 13 || p == 14 || p == 15 || p == 16 || p == 17 ||
        p == 18 || p == 19 || p == 20 || p == 21 || p == 22 || p == 23 || p == 24;
    }
  }

  lemma Elba()
    ensures CaseBlindSymmetric("Able was I ere I saw Elba")
  {
    ElbaChars0();
    ElbaChars7();
    ElbaChars14();
    ElbaChars21();
    ElbaMirror("Able was I ere I saw Elba");
  }
  // ---------------------------------------------------------------------
  // The three test groups

  lemma IsPalindromeSamples()
    ensures IsPalindrome("racecar") == Success(true)
    ensures IsPalindrome("A man a plan a canal Panama") == Success(true)
    ensures IsPalindrome("No lemon no melon") == Success(true)
    ensures IsPalindrome("a") == Success(true) && IsPalindrome("") == Success(true)
    ensures IsPalindrome("hello") == Success(false)
    ensures IsPalindrome("world") == Success(false)
    ensures IsPalindrome("12345") == Success(false)
  {
    Racecar();
    Panama();
    Lemon();
    Hello();
    World();
    Digits();
  }

  lemma RisSamples()
    ensures RisPalindrome("level")
    ensures RisPalindrome("Able was I ere I saw Elba")
    ensures RisPalindrome("A") && RisPalindrome("")
    ensures !RisPalindrome("world")
  {
    Level();
    Elba();
    assert ToUpper("world"[0]) != ToUpper("world"[4]);
  }

  lemma StlSamples()
    ensures StlIsPalindrome("deified")
    ensures StlIsPalindrome("A man a plan a canal Panama")
    ensures StlIsPalindrome("A    man a plan a      canal Panama")
    ensures StlIsPalindrome("12321")
    ensures !StlIsPalindrome("abcd")
  {
    Deified();
    IsPalindromeSound("deified");
    Panama();
    IsPalindromeSound("A man a plan a canal Panama");
    WidePanama();
    IsPalindromeSound("A    man a plan a      canal Panama");
    Mirrored();
    IsPalindromeSound("12321");
    Abcd();
    IsPalindromeSound("abcd");
  }
}

/**
 * pkg/validate_arg.go: the syntax check applied to the user's version argument
 * before any I/O. Go's len() counts UTF-8 bytes, so the length cap is stated on
 * Utf8Len; the regular expression is Go's RE2 without the multi-line flag, in
 * which `$` matches only at the end of the text.
 */
module ValidateArg {
  import opened Common
  import opened Strings

  const MaxArgLength := 8

  /** A match of [0-9]+ */
  predicate IsDigitRun(g: string)
  {
    |g| > 0 && forall i :: 0 <= i < |g| ==> IsAsciiDigit(g[i])
  }

  /** Whether the whole of s matches ^[0-9]+\.[0-9]+\.[0-9]+$ */
  predicate MatchesVersionPattern(s: string)
  {
    var groups := Split(s, '.');
    |groups| == 3 && IsDigitRun(groups[0]) && IsDigitRun(groups[1]) && IsDigitRun(groups[2])
  }

  function Dotted(a: string, b: string, c: string): string
  {
    a + "." + b + "." + c
  }

  /** Reference reading of the pattern: three digit runs joined by two dots, nothing else. */
  ghost predicate IsDottedTriple(s: string)
  {
    exists a, b, c :: IsDigitRun(a) && IsDigitRun(b) && IsDigitRun(c) && s == Dotted(a, b, c)
  }

  lemma DigitRunHasNoDot(g: string)
    requires IsDigitRun(g)
    ensures '.' !in g
  {
    assert forall i :: 0 <= i < |g| ==> g[i] != '.';
  }

  lemma JoinThree(a: string, b: string, c: string)
    ensures Join([a, b, c], '.') == Dotted(a, b, c)
  {
    assert [a, b, c][1..] == [b, c];
    assert [b, c][1..] == [c];
    assert Join([b, c], '.') == b + "." + c;
  }

  /** The splitting matcher accepts exactly the dotted triples. */
  lemma PatternIsDottedTriple(s: string)
    ensures MatchesVersionPattern(s) <==> IsDottedTriple(s)
  {
    if MatchesVersionPattern(s) {
      var g := Split(s, '.');
      JoinSplit(s, '.');
      assert g == [g[0], g[1], g[2]];
      JoinThree(g[0], g[1], g[2]);
      assert IsDigitRun(g[0]) && IsDigitRun(g[1]) && IsDigitRun(g[2]) && s == Dotted(g[0], g[1], g[2]);
    }
    if IsDottedTriple(s) {
      var a, b, c :| IsDigitRun(a) && IsDigitRun(b) && IsDigitRun(c) && s == Dotted(a, b, c);
      DigitRunHasNoDot(a);
      DigitRunHasNoDot(b);
      DigitRunHasNoDot(c);
      JoinThree(a, b, c);
      SplitJoin([a, b, c], '.');
    }
  }

  /**
   * ValidateArgSyntax: nil exactly for an argument of at most 8 bytes that is a
   * dotted triple; the length error for anything longer, whatever its shape.
   */
  function ValidateArgSyntax(param: string): (r: Outcome)
    ensures r == Err(InvalidLength) <==> Utf8Len(param) > MaxArgLength
    ensures r == Ok <==> Utf8Len(param) <= MaxArgLength && IsDottedTriple(param)
    ensures r.Err? ==> r.error == InvalidLength || r.error == InvalidFormat
  {
    PatternIsDottedTriple(param);
    if Utf8Len(param) > MaxArgLength then Err(InvalidLength)
    else if !MatchesVersionPattern(param) then Err(InvalidFormat)
    else Ok
  }

  lemma AsciiConcat(x: string, y: string)
    requires IsAscii(x) && IsAscii(y)
    ensures IsAscii(x + y)
  {
    assert forall i :: |x| <= i < |x + y| ==> (x + y)[i] == y[i - |x|];
  }

  lemma DigitRunAscii(g: string)
    requires IsDigitRun(g)
    ensures IsAscii(g)
  {
    assert forall i :: 0 <= i < |g| ==> IsAsciiDigit(g[i]);
  }

  lemma DottedTripleAscii(s: string)
    requires IsDottedTriple(s)
    ensures IsAscii(s) && |s| >= 5
  {
    var a, b, c :| IsDigitRun(a) && IsDigitRun(b) && IsDigitRun(c) && s == Dotted(a, b, c);
    DigitRunAscii(a);
    DigitRunAscii(b);
    DigitRunAscii(c);
    assert IsAscii(".");
    AsciiConcat(a, ".");
    AsciiConcat(a + ".", b);
    AsciiConcat(a + "." + b, ".");
    AsciiConcat(a + "." + b + ".", c);
  }

  lemma ShortTripleLength(param: string)
    requires Utf8Len(param) <= MaxArgLength && IsDottedTriple(param)
    ensures 5 <= |param| <= 8
    ensures Utf8Len(param) == |param|
  {
    DottedTripleAscii(param);
  }

  /** Every accepted argument is 5 to 8 characters long. */
  lemma AcceptedLength(param: string)
    requires ValidateArgSyntax(param) == Ok
    ensures 5 <= |param| <= 8
  {
    ShortTripleLength(param);
  }

  /** Every accepted argument is ASCII, so its byte length is its character count. */
  lemma AcceptedIsAscii(param: string)
    requires ValidateArgSyntax(param) == Ok
    ensures Utf8Len(param) == |param|
  {
    ShortTripleLength(param);
  }

  /** An accepted argument starts and ends with a digit: a leading `v`, surrounding whitespace and the empty string are all refused. */
  lemma AcceptedEndsWithDigits(param: string)
    requires ValidateArgSyntax(param) == Ok
    ensures |param| > 0 && IsAsciiDigit(param[0]) && IsAsciiDigit(param[|param| - 1])
  {
    var a, b, c :| IsDigitRun(a) && IsDigitRun(b) && IsDigitRun(c) && param == Dotted(a, b, c);
    assert param[0] == a[0];
    assert param[|param| - 1] == c[|c| - 1];
  }

  /** An accepted argument has exactly three dot-separated groups, none of them empty. */
  lemma AcceptedHasThreeGroups(param: string)
    requires ValidateArgSyntax(param) == Ok
    ensures |Split(param, '.')| == 3
    ensures forall i :: 0 <= i < 3 ==> Split(param, '.')[i] != ""
  {
  }

  /** The length check comes first: a well-shaped 9-byte argument gets the length error. */
  lemma LengthCheckedFirst()
    ensures IsDottedTriple("20.11.100")
    ensures ValidateArgSyntax("20.11.100") == Err(InvalidLength)
  {
    assert IsDigitRun("20") && IsDigitRun("11") && IsDigitRun("100");
    assert "20.11.100" == Dotted("20", "11", "100");
  }

  /** Groups are [0-9]+, so leading zeros are accepted. */
  lemma LeadingZerosAccepted()
    ensures ValidateArgSyntax("01.2.3") == Ok
  {
    assert IsDigitRun("01") && IsDigitRun("2") && IsDigitRun("3");
    assert "01.2.3" == Dotted("01", "2", "3");
  }

  lemma DigitRunCharacters(g: string)
    requires IsDigitRun(g)
    ensures multiset(g)['.'] == 0
  {
    DigitRunHasNoDot(g);
  }

  /**
   * An accepted argument holds only digits and dots, and a dot is always
   * followed by a digit: empty groups, signs, letters and whitespace anywhere
   * are all refused.
   */
  lemma AcceptedCharacters(param: string)
    requires ValidateArgSyntax(param) == Ok
    ensures forall i :: 0 <= i < |param| ==> IsAsciiDigit(param[i]) || param[i] == '.'
    ensures forall i :: 0 <= i < |param| - 1 && param[i] == '.' ==> IsAsciiDigit(param[i + 1])
  {
    var a, b, c :| IsDigitRun(a) && IsDigitRun(b) && IsDigitRun(c) && param == Dotted(a, b, c);
    forall i | 0 <= i < |param|
      ensures IsAsciiDigit(param[i]) || param[i] == '.'
      ensures i < |param| - 1 && param[i] == '.' ==> IsAsciiDigit(param[i + 1])
    {
      if i < |a| {
        assert param[i] == a[i];
      } else if i == |a| {
        assert param[i + 1] == b[0];
      } else if i < |a| + 1 + |b| {
        assert param[i] == b[i - |a| - 1];
      } else if i == |a| + 1 + |b| {
        assert param[i + 1] == c[0];
      } else {
        assert param[i] == c[i - |a| - |b| - 2];
      }
    }
  }

  /** An accepted argument holds exactly two dots. */
  lemma AcceptedDotCount(param: string)
    requires ValidateArgSyntax(param) == Ok
    ensures multiset(param)['.'] == 2
  {
    var a, b, c :| IsDigitRun(a) && IsDigitRun(b) && IsDigitRun(c) && param == Dotted(a, b, c);
    DigitRunCharacters(a);
    DigitRunCharacters(b);
    DigitRunCharacters(c);
    assert multiset(param) == multiset(a) + multiset(".") + multiset(b) + multiset(".") + multiset(c);
  }

  lemma ShortAsciiLength(param: string)
    requires IsAscii(param)
    ensures Utf8Len(param) == |param|
  {
  }

  /** A leading `v` is refused: the caller adds it. */
  lemma LeadingVRejected()
    ensures ValidateArgSyntax("v20.1.1") == Err(InvalidFormat)
  {
    ShortAsciiLength("v20.1.1");
    if ValidateArgSyntax("v20.1.1") == Ok {
      AcceptedEndsWithDigits("v20.1.1");
    }
  }

  /** Surrounding whitespace is refused, including a trailing newline. */
  lemma WhitespaceRejected()
    ensures ValidateArgSyntax(" 1.2.3") == Err(InvalidFormat)
    ensures ValidateArgSyntax("1.2.3\n") == Err(InvalidFormat)
  {
    ShortAsciiLength(" 1.2.3");
    ShortAsciiLength("1.2.3\n");
    if ValidateArgSyntax(" 1.2.3") == Ok {
      AcceptedEndsWithDigits(" 1.2.3");
    }
    if ValidateArgSyntax("1.2.3\n") == Ok {
      AcceptedEndsWithDigits("1.2.3\n");
    }
  }

  /** An empty group is refused. */
  lemma EmptyGroupRejected()
    ensures ValidateArgSyntax("1..2") == Err(InvalidFormat)
  {
    ShortAsciiLength("1..2");
    if ValidateArgSyntax("1..2") == Ok {
      AcceptedCharacters("1..2");
    }
  }

  /** Two groups are refused. */
  lemma TwoGroupsRejected()
    ensures ValidateArgSyntax("1.2") == Err(InvalidFormat)
  {
    ShortAsciiLength("1.2");
    assert "1.2" == "1" + ['.'] + "2";
    SplitAtSeparator("1", '.', "2");
    SplitWithoutSeparator("2", '.');
  }

  /** Four groups are refused. */
  lemma FourGroupsRejected()
    ensures ValidateArgSyntax("1.2.3.4") == Err(InvalidFormat)
  {
    ShortAsciiLength("1.2.3.4");
    assert "1.2.3.4" == "1" + ['.'] + ("2" + ['.'] + ("3" + ['.'] + "4"));
    SplitAtSeparator("1", '.', "2" + ['.'] + ("3" + ['.'] + "4"));
    SplitAtSeparator("2", '.', "3" + ['.'] + "4");
    SplitAtSeparator("3", '.', "4");
    SplitWithoutSeparator("4", '.');
  }

  /** The empty argument is refused with the format error. */
  lemma EmptyRejected()
    ensures ValidateArgSyntax("") == Err(InvalidFormat)
  {
    if ValidateArgSyntax("") == Ok {
      AcceptedEndsWithDigits("");
    }
  }
}

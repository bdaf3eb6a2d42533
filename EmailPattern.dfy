/** The email pattern `^([\w\.\-]+)@([\w\-]+)((\.(\w){2,3})+)$` of the
    request validator: its meaning as a regex, a hand-written recogniser for
    it, the proof that the two agree, and what the pattern rules out. */
module EmailPattern {
  import opened Regex
  import opened TextClasses

  /** `[\w\.\-]`: the characters of the part before `@`. */
  const LocalClass: Regex := Alt(Word, Alt(Char('.'), Char('-')))
  /** `[\w\-]`: the characters of the label after `@`. */
  const LabelClass: Regex := Alt(Word, Char('-'))
  /** `\.(\w){2,3}`: one dot-segment. */
  const Segment: Regex := Seq(Char('.'), Alt(Seq(Word, Word), Seq(Word, Seq(Word, Word))))
  /** The pattern between `^` and `$`. */
  const Pattern: Regex :=
    Seq(Plus(LocalClass), Seq(Char('@'), Seq(Plus(LabelClass), Plus(Segment))))

  /** `^` without the Multiline option: only at the start of the input. */
  predicate CaretAt(p: int)
  {
    p == 0
  }

  /** `$` without the Multiline option: at the end of the input, or just
      before a newline that ends it. */
  predicate DollarAt(s: string, p: int)
  {
    p == |s| || (|s| > 0 && p == |s| - 1 && s[p] == '\n')
  }

  /** `Regex.Match` succeeds: some stretch of the input, starting where `^`
      holds and ending where `$` holds, matches the pattern. Only two
      stretches qualify: the whole input, and the input less a final newline. */
  ghost function RegexMatches(w: char -> bool, s: string): (r: bool)
    ensures r <==>
              || Matches(w, Pattern, s)
              || (|s| > 0 && s[|s| - 1] == '\n' && Matches(w, Pattern, s[..|s| - 1]))
  {
    assert s[0..|s|] == s;
    assert |s| > 0 ==> s[0..|s| - 1] == s[..|s| - 1];
    exists i, j :: 0 <= i <= j <= |s| && CaretAt(i) && DollarAt(s, j) && Matches(w, Pattern, s[i..j])
  }

  // ---------------------------------------------------------------------
  // The recogniser

  predicate IsLocalChar(w: char -> bool, c: char)
  {
    w(c) || c == '.' || c == '-'
  }

  predicate IsLabelChar(w: char -> bool, c: char)
  {
    w(c) || c == '-'
  }

  /** Position of the first `c` in `s`, or `|s|` when there is none. */
  function IndexOf(s: string, c: char): (i: nat)
    ensures i <= |s|
    ensures i < |s| ==> s[i] == c
    ensures forall k :: 0 <= k < i ==> s[k] != c
  {
    if s == [] then 0
    else if s[0] == c then 0
    else 1 + IndexOf(s[1..], c)
  }

  /** `s` is one or more segments, each a dot and two or three word characters. */
  predicate IsSegments(w: char -> bool, s: string)
    decreases |s|
  {
    && |s| >= 3 && s[0] == '.' && w(s[1]) && w(s[2])
    && (|| |s| == 3
        || IsSegments(w, s[3..])
        || (w(s[3]) && (|s| == 4 || IsSegments(w, s[4..]))))
  }

  /** The text after `@`: a non-empty label up to the first dot, then segments. */
  predicate IsDomain(w: char -> bool, d: string)
  {
    var dot := IndexOf(d, '.');
    && 0 < dot < |d|
    && (forall k :: 0 <= k < dot ==> IsLabelChar(w, d[k]))
    && IsSegments(w, d[dot..])
  }

  /** The whole of `s` fits the pattern: a non-empty local part up to the
      first `@`, the `@`, and a domain. */
  predicate IsEmailShape(w: char -> bool, s: string)
  {
    var at := IndexOf(s, '@');
    && 0 < at < |s|
    && (forall k :: 0 <= k < at ==> IsLocalChar(w, s[k]))
    && IsDomain(w, s[at + 1..])
  }

  /** What the validator computes for `regex.Match(email).Success`: the
      input, or the input less a final newline, has the shape of an address.
      For every admissible `\w` this is exactly the regex's verdict. */
  function EmailMatches(w: char -> bool, s: string): (r: bool)
    ensures ValidWordClass(w) ==> (r <==> RegexMatches(w, s))
  {
    ShapeMatchesWhen(w, s);
    if |s| > 0 && s[|s| - 1] == '\n' then
      ShapeMatchesWhen(w, s[..|s| - 1]);
      IsEmailShape(w, s) || IsEmailShape(w, s[..|s| - 1])
    else
      IsEmailShape(w, s)
  }

  // ---------------------------------------------------------------------
  // The recogniser decides the regex

  lemma LocalRunMatches(w: char -> bool, t: string)
    ensures Matches(w, Plus(LocalClass), t) <==>
              |t| > 0 && forall k :: 0 <= k < |t| ==> IsLocalChar(w, t[k])
  {
    PlusClassMatches(w, LocalClass, t);
    forall c ensures InClass(w, LocalClass, c) <==> IsLocalChar(w, c) {
      assert InClass(w, Alt(Char('.'), Char('-')), c) <==> c == '.' || c == '-';
    }
  }

  lemma LabelRunMatches(w: char -> bool, t: string)
    ensures Matches(w, Plus(LabelClass), t) <==>
              |t| > 0 && forall k :: 0 <= k < |t| ==> IsLabelChar(w, t[k])
  {
    PlusClassMatches(w, LabelClass, t);
    assert forall c :: InClass(w, LabelClass, c) <==> IsLabelChar(w, c);
  }

  lemma SegmentMatches(w: char -> bool, t: string)
    ensures Matches(w, Segment, t) <==>
              && (|t| == 3 || |t| == 4) && t[0] == '.'
              && forall k :: 1 <= k < |t| ==> w(t[k])
  {
    var two := Seq(Word, Word);
    var three := Seq(Word, two);
    SeqClassMatches(w, Char('.'), Alt(two, three), t);
    if |t| > 0 {
      var u := t[1..];
      SeqClassMatches(w, Word, Word, u);
      SeqClassMatches(w, Word, two, u);
      if |u| > 0 {
        SeqClassMatches(w, Word, Word, u[1..]);
      }
    }
  }

  lemma {:induction false} SegmentsMatch(w: char -> bool, s: string)
    ensures IsSegments(w, s) <==> Matches(w, Plus(Segment), s)
    decreases |s|
  {
    SegmentMatches(w, s);
    if IsSegments(w, s) {
      if |s| == 3 || (w(s[3]) && |s| == 4) {
      } else if IsSegments(w, s[3..]) {
        SegmentMatches(w, s[..3]);
        SegmentsMatch(w, s[3..]);
        assert Matches(w, Segment, s[..3]) && Matches(w, Plus(Segment), s[3..]);
      } else {
        SegmentMatches(w, s[..4]);
        SegmentsMatch(w, s[4..]);
        assert Matches(w, Segment, s[..4]) && Matches(w, Plus(Segment), s[4..]);
      }
    }
    if Matches(w, Plus(Segment), s) && !Matches(w, Segment, s) {
      var i :| 0 < i < |s| && Matches(w, Segment, s[..i]) && Matches(w, Plus(Segment), s[i..]);
      SegmentMatches(w, s[..i]);
      SegmentsMatch(w, s[i..]);
      assert s[..i][1] == s[1] && s[..i][2] == s[2];
      if i == 4 { assert s[..i][3] == s[3]; }
    }
  }

  /** With `.` outside `\w`, the label ends at the first dot. */
  lemma DomainMatches(w: char -> bool, d: string)
    requires !w('.')
    ensures IsDomain(w, d) <==> Matches(w, Seq(Plus(LabelClass), Plus(Segment)), d)
  {
    var dot := IndexOf(d, '.');
    if IsDomain(w, d) {
      LabelRunMatches(w, d[..dot]);
      SegmentsMatch(w, d[dot..]);
      assert Matches(w, Plus(LabelClass), d[..dot]) && Matches(w, Plus(Segment), d[dot..]);
    }
    if Matches(w, Seq(Plus(LabelClass), Plus(Segment)), d) {
      var j :| 0 <= j <= |d| && Matches(w, Plus(LabelClass), d[..j])
                && Matches(w, Plus(Segment), d[j..]);
      LabelRunMatches(w, d[..j]);
      SegmentsMatch(w, d[j..]);
      assert forall k :: 0 <= k < j ==> IsLabelChar(w, d[k]) by {
        forall k | 0 <= k < j ensures IsLabelChar(w, d[k]) {
          assert d[..j][k] == d[k];
        }
      }
      assert d[j] == '.' by { assert d[j..][0] == d[j]; }
      assert dot == j;
    }
  }

  /** `@` followed by a domain. */
  const AtDomain: Regex := Seq(Char('@'), Seq(Plus(LabelClass), Plus(Segment)))

  lemma ShapeToPattern(w: char -> bool, s: string)
    requires !w('.')
    requires IsEmailShape(w, s)
    ensures Matches(w, Pattern, s)
  {
    var at := IndexOf(s, '@');
    LocalRunMatches(w, s[..at]);
    DomainMatches(w, s[at + 1..]);
    SeqClassMatches(w, Char('@'), Seq(Plus(LabelClass), Plus(Segment)), s[at..]);
    assert s[at..][1..] == s[at + 1..];
    assert Matches(w, Plus(LocalClass), s[..at]) && Matches(w, AtDomain, s[at..]);
  }

  lemma PatternToShape(w: char -> bool, s: string)
    requires !w('@') && !w('.')
    requires Matches(w, Pattern, s)
    ensures IsEmailShape(w, s)
  {
    var i :| 0 <= i <= |s| && Matches(w, Plus(LocalClass), s[..i])
              && Matches(w, AtDomain, s[i..]);
    LocalRunMatches(w, s[..i]);
    SeqClassMatches(w, Char('@'), Seq(Plus(LabelClass), Plus(Segment)), s[i..]);
    assert s[i..][1..] == s[i + 1..];
    assert s[i] == '@' by { assert s[i..][0] == s[i]; }
    DomainMatches(w, s[i + 1..]);
    forall k | 0 <= k < i ensures IsLocalChar(w, s[k]) && s[k] != '@' {
      assert s[..i][k] == s[k];
    }
    IndexOfAt(s, '@', i);
  }

  /** With `@` and `.` outside `\w`, the recogniser accepts exactly the
      strings the pattern matches in full. */
  lemma ShapeMatches(w: char -> bool, s: string)
    requires !w('@') && !w('.')
    ensures IsEmailShape(w, s) <==> Matches(w, Pattern, s)
  {
    if IsEmailShape(w, s) {
      ShapeToPattern(w, s);
    }
    if Matches(w, Pattern, s) {
      PatternToShape(w, s);
    }
  }

  /** `ShapeMatches` with its requires turned into an implication, so that
      the function `EmailMatches` can call it unconditionally in its body. */
  lemma ShapeMatchesWhen(w: char -> bool, s: string)
    ensures !w('@') && !w('.') ==> (IsEmailShape(w, s) <==> Matches(w, Pattern, s))
  {
    if !w('@') && !w('.') {
      ShapeMatches(w, s);
    }
  }

  // ---------------------------------------------------------------------
  // What the pattern rules out

  lemma {:induction false} SegmentsChars(w: char -> bool, t: string)
    requires IsSegments(w, t)
    ensures forall k :: 0 <= k < |t| ==> t[k] == '.' || w(t[k])
    decreases |t|
  {
    if |t| > 3 && IsSegments(w, t[3..]) {
      SegmentsChars(w, t[3..]);
      assert forall k :: 3 <= k < |t| ==> t[k] == t[3..][k - 3];
    } else if |t| > 4 && w(t[3]) && IsSegments(w, t[4..]) {
      SegmentsChars(w, t[4..]);
      assert forall k :: 4 <= k < |t| ==> t[k] == t[4..][k - 4];
    }
  }

  /** A domain holds only word characters, hyphens and dots. */
  lemma DomainChars(w: char -> bool, d: string)
    requires IsDomain(w, d)
    ensures forall k :: 0 <= k < |d| ==> IsLocalChar(w, d[k])
  {
    var dot := IndexOf(d, '.');
    var t := d[dot..];
    SegmentsChars(w, t);
    forall k | dot <= k < |d| ensures IsLocalChar(w, d[k]) {
      assert d[k] == t[k - dot];
    }
  }

  /** Characters of `s` past `at` are those of the suffix `s[at + 1..]`. */
  lemma SuffixLocalChars(w: char -> bool, s: string, at: nat, d: string)
    requires at < |s| && d == s[at + 1..]
    requires forall k :: 0 <= k < |d| ==> IsLocalChar(w, d[k])
    ensures forall k :: at < k < |s| ==> IsLocalChar(w, s[k])
  {
    forall k | at < k < |s| ensures IsLocalChar(w, s[k]) {
      assert s[k] == d[k - at - 1];
    }
  }

  /** Every character of an accepted address is `@` or a local-part
      character, and `@` occurs once only. */
  lemma ShapeChars(w: char -> bool, s: string)
    requires !w('@')
    requires IsEmailShape(w, s)
    ensures forall k :: 0 <= k < |s| ==> s[k] == '@' || IsLocalChar(w, s[k])
    ensures forall k :: 0 <= k < |s| && s[k] == '@' ==> k == IndexOf(s, '@')
  {
    var at := IndexOf(s, '@');
    DomainChars(w, s[at + 1..]);
    SuffixLocalChars(w, s, at, s[at + 1..]);
    assert !IsLocalChar(w, '@');
  }

  /** An accepted address holds no whitespace. */
  lemma ShapeHasNoWhiteSpace(w: char -> bool, s: string)
    requires ValidWordClass(w)
    requires IsEmailShape(w, s)
    ensures forall k :: 0 <= k < |s| ==> !IsWhiteSpace(s[k])
  {
    ShapeChars(w, s);
    assert !IsWhiteSpace('@') && !IsWhiteSpace('.') && !IsWhiteSpace('-');
  }

  /** An email without `@` is rejected. */
  lemma AtSignRequired(w: char -> bool, s: string)
    requires '@' !in s
    ensures !EmailMatches(w, s)
  {
    if |s| > 0 {
      assert '@' !in s[..|s| - 1];
    }
  }

  /** An email with two `@` is rejected. */
  lemma SecondAtSignRejected(w: char -> bool, s: string, i: nat, j: nat)
    requires !w('@')
    requires i < j < |s| && s[i] == '@' && s[j] == '@'
    ensures !EmailMatches(w, s)
  {
    if IsEmailShape(w, s) {
      ShapeChars(w, s);
    }
    if |s| > 0 && s[|s| - 1] == '\n' && IsEmailShape(w, s[..|s| - 1]) {
      assert s[..|s| - 1][i] == '@' && s[..|s| - 1][j] == '@';
      ShapeChars(w, s[..|s| - 1]);
    }
  }

  lemma NoDotAfterAtShape(w: char -> bool, s: string, i: nat)
    requires !w('@')
    requires i < |s| && s[i] == '@' && forall k :: i < k < |s| ==> s[k] != '.'
    ensures !IsEmailShape(w, s)
  {
    if IsEmailShape(w, s) {
      ShapeChars(w, s);
    }
  }

  /** An email with no `.` after its `@` is rejected. */
  lemma DotRequiredAfterAt(w: char -> bool, s: string, i: nat)
    requires !w('@')
    requires i < |s| && s[i] == '@' && forall k :: i < k < |s| ==> s[k] != '.'
    ensures !EmailMatches(w, s)
  {
    NoDotAfterAtShape(w, s, i);
    if |s| > 0 && s[|s| - 1] == '\n' {
      NoDotAfterAtShape(w, s[..|s| - 1], i);
    }
  }

  /** The characters after the last `.` of `s` (all of `s` if it has none). */
  function AfterLastDot(s: string): (r: string)
    ensures |r| <= |s| && r == s[|s| - |r|..]
    ensures '.' !in r
    ensures |r| < |s| ==> s[|s| - |r| - 1] == '.'
    decreases |s|
  {
    if s == [] then []
    else if s[|s| - 1] == '.' then []
    else
      var p, c := s[..|s| - 1], s[|s| - 1];
      var r := AfterLastDot(p);
      assert s == p + [c];
      assert s[|s| - |r| - 1..] == p[|p| - |r|..] + [c];
      assert '.' !in r + [c];
      r + [c]
  }

  lemma {:induction false} AfterLastDotOf(u: string, v: string)
    requires '.' !in v
    ensures AfterLastDot(u + ['.'] + v) == v
    decreases |v|
  {
    var s := u + ['.'] + v;
    if v != [] {
      var v' := v[..|v| - 1];
      assert s[..|s| - 1] == u + ['.'] + v';
      assert v[|v| - 1] in v;
      AfterLastDotOf(u, v');
      assert v == v' + [v[|v| - 1]];
    }
  }

  lemma AfterLastDotAppend(u: string, t: string)
    requires '.' in t
    ensures AfterLastDot(u + t) == AfterLastDot(t)
  {
    var r := AfterLastDot(t);
    var n := |t| - |r| - 1;
    assert u + t == (u + t[..n]) + ['.'] + r;
    AfterLastDotOf(u + t[..n], r);
  }

  lemma {:induction false} SegmentsLastLength(w: char -> bool, t: string)
    requires !w('.')
    requires IsSegments(w, t)
    ensures 2 <= |AfterLastDot(t)| <= 3
    decreases |t|
  {
    if |t| > 3 && IsSegments(w, t[3..]) {
      SegmentsLastLength(w, t[3..]);
      assert t == t[..3] + t[3..];
      AfterLastDotAppend(t[..3], t[3..]);
    } else if |t| > 4 && w(t[3]) && IsSegments(w, t[4..]) {
      SegmentsLastLength(w, t[4..]);
      assert t == t[..4] + t[4..];
      AfterLastDotAppend(t[..4], t[4..]);
    } else {
      assert t == [] + ['.'] + t[1..];
      AfterLastDotOf([], t[1..]);
    }
  }

  /** In an accepted address the last segment has two or three characters. */
  lemma ShapeLastSegment(w: char -> bool, s: string)
    requires !w('.')
    requires IsEmailShape(w, s)
    ensures 2 <= |AfterLastDot(s)| <= 3
  {
    var at := IndexOf(s, '@');
    var d := s[at + 1..];
    var dot := IndexOf(d, '.');
    SegmentsLastLength(w, d[dot..]);
    assert s == s[..at + 1 + dot] + d[dot..];
    AfterLastDotAppend(s[..at + 1 + dot], d[dot..]);
  }

  /** An email whose last segment has fewer than two or more than three
      characters is rejected, with or without a final newline. */
  lemma LastSegmentLengthRejected(w: char -> bool, u: string, v: string)
    requires ValidWordClass(w)
    requires '.' !in v && (|v| < 2 || |v| > 3)
    requires v == [] || v[|v| - 1] != '\n'
    ensures !EmailMatches(w, u + ['.'] + v)
    ensures !EmailMatches(w, u + ['.'] + v + ['\n'])
  {
    var s := u + ['.'] + v;
    AfterLastDotOf(u, v);
    if IsEmailShape(w, s) {
      ShapeLastSegment(w, s);
    }
    var t := s + ['\n'];
    if IsEmailShape(w, t) {
      assert IsWhiteSpace(t[|s|]);
      ShapeHasNoWhiteSpace(w, t);
    }
    assert t[..|t| - 1] == s;
  }

  /** Whitespace anywhere in an email is rejected, except one newline at the
      very end, which `$` lets through. */
  lemma WhiteSpaceRejected(w: char -> bool, s: string, i: nat)
    requires ValidWordClass(w)
    requires i < |s| && IsWhiteSpace(s[i]) && !(i == |s| - 1 && s[i] == '\n')
    ensures !EmailMatches(w, s)
  {
    if IsEmailShape(w, s) {
      ShapeHasNoWhiteSpace(w, s);
    }
    if |s| > 0 && s[|s| - 1] == '\n' && IsEmailShape(w, s[..|s| - 1]) {
      assert s[..|s| - 1][i] == s[i];
      ShapeHasNoWhiteSpace(w, s[..|s| - 1]);
    }
  }

  /** The `$` quirk: an accepted address followed by one newline is accepted
      too, but not one followed by two. */
  lemma TrailingNewline(w: char -> bool, s: string)
    requires ValidWordClass(w)
    requires IsEmailShape(w, s)
    ensures EmailMatches(w, s + ['\n'])
    ensures !EmailMatches(w, s + ['\n', '\n'])
  {
    assert (s + ['\n'])[..|s|] == s;
    WhiteSpaceRejected(w, s + ['\n', '\n'], |s|);
  }

  lemma IndexOfAt(s: string, c: char, i: nat)
    requires i < |s| && s[i] == c && forall k :: 0 <= k < i ==> s[k] != c
    ensures IndexOf(s, c) == i
  {
  }

  /** A non-empty local part, `@`, a non-empty label and segments make an
      accepted address. */
  lemma ShapeIntro(w: char -> bool, local: string, name: string, segments: string)
    requires !w('@') && !w('.')
    requires |local| > 0 && forall k :: 0 <= k < |local| ==> IsLocalChar(w, local[k])
    requires |name| > 0 && forall k :: 0 <= k < |name| ==> IsLabelChar(w, name[k])
    requires IsSegments(w, segments)
    ensures IsEmailShape(w, local + ['@'] + name + segments)
  {
    var s := local + ['@'] + name + segments;
    IndexOfAt(s, '@', |local|);
    var d := s[|local| + 1..];
    assert d == name + segments;
    IndexOfAt(d, '.', |name|);
    assert d[|name|..] == segments;
  }

  // Sample addresses, for any admissible meaning of `\w`.

  lemma ExampleParts(w: char -> bool)
    requires ValidWordClass(w)
    ensures forall k :: 0 <= k < 4 ==> IsLocalChar(w, "jo.b"[k])
    ensures forall k :: 0 <= k < 7 ==> IsLabelChar(w, "hackney"[k])
    ensures IsSegments(w, ".gov.uk")
  {
    assert forall k :: 0 <= k < 4 ==> IsAsciiWordChar("jo.b"[k]) || "jo.b"[k] == '.';
    assert forall k :: 0 <= k < 7 ==> IsAsciiWordChar("hackney"[k]);
    assert IsAsciiWordChar('g') && IsAsciiWordChar('o') && IsAsciiWordChar('v');
    assert IsAsciiWordChar('u') && IsAsciiWordChar('k');
  }

  /** The address is a parameter pinned by a requires rather than a literal
      in the ensures: this stops the verifier unfolding the recogniser on the
      literal, which it cannot do within its resource budget. */
  lemma ExampleAccepted(w: char -> bool, s: string)
    requires ValidWordClass(w)
    requires s == "jo.b@hackney.gov.uk"
    ensures EmailMatches(w, s)
  {
    assert s == "jo.b" + ['@'] + "hackney" + ".gov.uk";
    ExampleParts(w);
    ShapeIntro(w, "jo.b", "hackney", ".gov.uk");
  }

  lemma ExampleNoDotRejected(w: char -> bool)
    requires ValidWordClass(w)
    ensures !EmailMatches(w, "jo@hackney")
  {
    var s := "jo@hackney";
    assert s[2] == '@';
    assert forall k :: 2 < k < |s| ==> s[k] != '.';
    DotRequiredAfterAt(w, s, 2);
  }

  lemma ExampleTwoAtRejected(w: char -> bool)
    requires ValidWordClass(w)
    ensures !EmailMatches(w, "jo@b@hackney.gov.uk")
  {
    var s := "jo@b@hackney.gov.uk";
    assert s[2] == '@' && s[4] == '@';
    SecondAtSignRejected(w, s, 2, 4);
  }

  lemma ExampleShortSegmentRejected(w: char -> bool)
    requires ValidWordClass(w)
    ensures !EmailMatches(w, "jo@hackney.k")
  {
    assert "jo@hackney.k" == "jo@hackney" + ['.'] + "k";
    LastSegmentLengthRejected(w, "jo@hackney", "k");
  }

  lemma ExamplePaddedRejected(w: char -> bool)
    requires ValidWordClass(w)
    ensures !EmailMatches(w, " jo@hackney.gov.uk")
  {
    var s := " jo@hackney.gov.uk";
    assert IsWhiteSpace(s[0]);
    WhiteSpaceRejected(w, s, 0);
  }
}

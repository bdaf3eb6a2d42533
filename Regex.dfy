/** The fragment of .NET regular-expression syntax that the email pattern
    uses, with its meaning as the set of strings a regex matches in full.
    This is the reference the hand-written recogniser is proved against. */
module Regex {

  /** `Word` is `\w`; `Char(c)` a literal or escaped character such as `\.`;
      `Seq` juxtaposition; `Alt` a choice inside a character class; `Plus`
      the `+` quantifier. Groups only capture, so they leave no trace here,
      and `{2,3}` is written out as the choice between two and three copies. */
  datatype Regex =
    | Word
    | Char(c: char)
    | Seq(first: Regex, second: Regex)
    | Alt(left: Regex, right: Regex)
    | Plus(body: Regex)

  /** `r` matches all of `s`, with `w` as the meaning of `\w`. */
  ghost predicate Matches(w: char -> bool, r: Regex, s: string)
    decreases |s|, r
  {
    match r
    case Word => |s| == 1 && w(s[0])
    case Char(c) => s == [c]
    case Seq(a, b) =>
      exists i :: 0 <= i <= |s| && Matches(w, a, s[..i]) && Matches(w, b, s[i..])
    case Alt(a, b) => Matches(w, a, s) || Matches(w, b, s)
    case Plus(a) =>
      || Matches(w, a, s)
      || exists i :: 0 < i < |s| && Matches(w, a, s[..i]) && Matches(w, r, s[i..])
  }

  /** A regex that stands for a set of single characters: a character class. */
  predicate IsClass(r: Regex)
  {
    match r
    case Word => true
    case Char(_) => true
    case Alt(a, b) => IsClass(a) && IsClass(b)
    case _ => false
  }

  /** Membership of `c` in the class `r`. */
  predicate InClass(w: char -> bool, r: Regex, c: char)
    requires IsClass(r)
  {
    match r
    case Word => w(c)
    case Char(d) => c == d
    case Alt(a, b) => InClass(w, a, c) || InClass(w, b, c)
  }

  /** A class matches exactly the one-character strings made of its members. */
  lemma {:induction false} ClassMatches(w: char -> bool, r: Regex, s: string)
    requires IsClass(r)
    ensures Matches(w, r, s) <==> |s| == 1 && InClass(w, r, s[0])
  {
    match r
    case Word =>
    case Char(_) =>
    case Alt(a, b) =>
      ClassMatches(w, a, s);
      ClassMatches(w, b, s);
  }

  /** `[class]+` matches exactly the non-empty runs of class members. */
  lemma {:induction false} PlusClassMatches(w: char -> bool, r: Regex, s: string)
    requires IsClass(r)
    ensures Matches(w, Plus(r), s) <==>
              |s| > 0 && forall k :: 0 <= k < |s| ==> InClass(w, r, s[k])
    decreases |s|
  {
    ClassMatches(w, r, s);
    if Matches(w, Plus(r), s) && !Matches(w, r, s) {
      var i :| 0 < i < |s| && Matches(w, r, s[..i]) && Matches(w, Plus(r), s[i..]);
      ClassMatches(w, r, s[..i]);
      PlusClassMatches(w, r, s[i..]);
      assert forall k :: 0 <= k < |s| ==> InClass(w, r, s[k]) by {
        forall k | 0 <= k < |s| ensures InClass(w, r, s[k]) {
          if k >= 1 { assert s[k] == s[i..][k - 1]; }
        }
      }
    }
    if |s| > 1 && forall k :: 0 <= k < |s| ==> InClass(w, r, s[k]) {
      ClassMatches(w, r, s[..1]);
      PlusClassMatches(w, r, s[1..]);
      assert Matches(w, r, s[..1]) && Matches(w, Plus(r), s[1..]);
    }
  }

  /** A sequence that starts with a class consumes exactly one member of it. */
  lemma SeqClassMatches(w: char -> bool, r: Regex, b: Regex, s: string)
    requires IsClass(r)
    ensures Matches(w, Seq(r, b), s) <==>
              |s| > 0 && InClass(w, r, s[0]) && Matches(w, b, s[1..])
  {
    if Matches(w, Seq(r, b), s) {
      var i :| 0 <= i <= |s| && Matches(w, r, s[..i]) && Matches(w, b, s[i..]);
      ClassMatches(w, r, s[..i]);
    }
    if |s| > 0 && InClass(w, r, s[0]) && Matches(w, b, s[1..]) {
      ClassMatches(w, r, s[..1]);
      assert Matches(w, r, s[..1]) && Matches(w, b, s[1..]);
    }
  }
}

/** The character classes the validator relies on: .NET's
    `char.IsWhiteSpace` (behind `string.IsNullOrWhiteSpace`) and the regular
    expression class `\w`. */
module TextClasses {
  import opened Wrappers

  /** .NET `char.IsWhiteSpace`: the Unicode space, line and paragraph
      separators (categories Zs, Zl, Zp) plus the control characters
      U+0009 to U+000D and U+0085. */
  predicate IsWhiteSpace(c: char)
  {
    || ('\U{9}' <= c <= '\U{D}')
    || c == '\U{20}' || c == '\U{85}' || c == '\U{A0}' || c == '\U{1680}'
    || ('\U{2000}' <= c <= '\U{200A}')
    || c == '\U{2028}' || c == '\U{2029}' || c == '\U{202F}' || c == '\U{205F}'
    || c == '\U{3000}'
  }

  /** Scans `t` from the front and stops at the first character that is not
      whitespace, as .NET does. */
  function AllWhiteSpace(t: string): (r: bool)
    ensures r <==> forall k :: 0 <= k < |t| ==> IsWhiteSpace(t[k])
  {
    t == [] || (IsWhiteSpace(t[0]) && AllWhiteSpace(t[1..]))
  }

  /** .NET `string.IsNullOrWhiteSpace`: null, empty, or whitespace only. */
  function IsNullOrWhiteSpace(s: Option<string>): (r: bool)
    ensures s.None? ==> r
    ensures s == Some([]) ==> r
    ensures s.Some? ==> (r <==> forall k :: 0 <= k < |s.value| ==> IsWhiteSpace(s.value[k]))
  {
    match s
    case None => true
    case Some(t) => AllWhiteSpace(t)
  }

  /** The ASCII members of `\w`: letters, digits and the underscore. */
  predicate IsAsciiWordChar(c: char)
  {
    ('a' <= c <= 'z') || ('A' <= c <= 'Z') || ('0' <= c <= '9') || c == '_'
  }

  /** A word-character class `w` stands for .NET's Unicode-aware `\w`
      (categories L, Mn, Nd, Pc), which the model does not enumerate. What
      the model relies on is stated here: every ASCII letter, digit and
      underscore is a word character; `@`, `.`, `-` and every whitespace
      character are not; nor is any character outside the Basic Multilingual
      Plane, which .NET holds as two surrogate code units of category Cs. */
  ghost predicate ValidWordClass(w: char -> bool)
  {
    && (forall c :: IsAsciiWordChar(c) ==> w(c))
    && !w('@') && !w('.') && !w('-')
    && (forall c :: IsWhiteSpace(c) ==> !w(c))
    && (forall c :: c as int > 0xFFFF ==> !w(c))
  }

  /** The narrowest class the model admits: exactly the ASCII word characters. */
  lemma AsciiWordClassIsValid()
    ensures ValidWordClass(IsAsciiWordChar)
  {
  }
}

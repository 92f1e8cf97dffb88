/**
 * The pieces of the Java platform and of Spring's utilities that the exception
 * relies on for text: `Character.isWhitespace`, `StringUtils.hasText` (behind
 * `Assert.hasText`) and the `%s` conversion of `String.format`.
 */
module JavaText {
  import opened Wrappers

  /** `Character.isWhitespace`: the Unicode space, line and paragraph separators
      other than the non-breaking ones, plus the ASCII and information-separator
      control characters. */
  predicate IsWhitespace(c: char) {
    || ('\t' <= c <= '\r')
    || ('\U{001C}' <= c <= '\U{001F}')
    || c == ' '
    || c == '\U{1680}'
    || ('\U{2000}' <= c <= '\U{2006}')
    || ('\U{2008}' <= c <= '\U{200A}')
    || c == '\U{2028}' || c == '\U{2029}'
    || c == '\U{205F}' || c == '\U{3000}'
  }

  /** The scan `StringUtils.containsText` performs: some character is not whitespace. */
  predicate ContainsText(s: string)
    decreases |s|
  {
    |s| > 0 && (!IsWhitespace(s[0]) || ContainsText(s[1..]))
  }

  /** `StringUtils.hasText`: not null, not empty and not whitespace only. */
  predicate HasText(s: Option<string>) {
    s.Some? && |s.value| > 0 && ContainsText(s.value)
  }

  /** The scan finds text exactly when some position holds a non-whitespace character. */
  lemma {:induction false} ContainsTextIffNonWhitespaceAt(s: string)
    ensures ContainsText(s) <==> exists i :: 0 <= i < |s| && !IsWhitespace(s[i])
    decreases |s|
  {
    if |s| > 0 {
      ContainsTextIffNonWhitespaceAt(s[1..]);
      if ContainsText(s[1..]) {
        var i :| 0 <= i < |s[1..]| && !IsWhitespace(s[1..][i]);
        assert !IsWhitespace(s[i + 1]);
      }
      if exists i :: 0 <= i < |s| && !IsWhitespace(s[i]) {
        var i :| 0 <= i < |s| && !IsWhitespace(s[i]);
        if i > 0 {
          assert !IsWhitespace(s[1..][i - 1]);
        }
      }
    }
  }

  /** A string with text is non-empty and has a non-whitespace character. */
  lemma HasTextMeansNonBlank(s: Option<string>)
    ensures HasText(s) <==> s.Some? && exists i :: 0 <= i < |s.value| && !IsWhitespace(s.value[i])
  {
    if s.Some? {
      ContainsTextIffNonWhitespaceAt(s.value);
    }
  }

  /** Puts `prefix` in front of a formatted string, keeping a failure a failure. */
  function Prepend(prefix: string, o: Option<string>): Option<string> {
    match o
    case None => None
    case Some(s) => Some(prefix + s)
  }

  /**
   * `String.format(template, args...)` for templates whose only conversion is
   * `%s` applied to non-null strings: each `%s` is replaced by the next
   * argument, surplus arguments are ignored. A `%s` with no argument left
   * (Java's MissingFormatArgumentException) and any other `%` conversion, which
   * this model does not cover, give `None`.
   */
  function Format(template: string, args: seq<string>): (r: Option<string>)
    ensures (forall i :: 0 <= i < |template| ==> template[i] != '%') ==> r == Some(template)
    decreases |template|
  {
    if |template| == 0 then Some("")
    else if template[0] != '%' then
      assert [template[0]] + template[1..] == template;
      Prepend([template[0]], Format(template[1..], args))
    else if |template| >= 2 && template[1] == 's' && |args| > 0 then
      Prepend(args[0], Format(template[2..], args[1..]))
    else None
  }

  /** Literal text in front of the template is copied to the front of the result. */
  lemma {:induction false} FormatAfterLiteral(lit: string, rest: string, args: seq<string>)
    requires forall i :: 0 <= i < |lit| ==> lit[i] != '%'
    ensures Format(lit + rest, args) == Prepend(lit, Format(rest, args))
    decreases |lit|
  {
    if |lit| == 0 {
      assert lit + rest == rest;
      if Format(rest, args).Some? {
        assert lit + Format(rest, args).value == Format(rest, args).value;
      }
    } else {
      assert (lit + rest)[0] == lit[0];
      assert (lit + rest)[1..] == lit[1..] + rest;
      assert lit[0] != '%';
      FormatAfterLiteral(lit[1..], rest, args);
      assert [lit[0]] + lit[1..] == lit;
      if Format(rest, args).Some? {
        assert [lit[0]] + (lit[1..] + Format(rest, args).value) == lit + Format(rest, args).value;
      }
    }
  }

  /** A leading `%s` is replaced by the first argument. */
  lemma FormatAfterSpecifier(arg: string, rest: string, args: seq<string>)
    ensures Format("%s" + rest, [arg] + args) == Prepend(arg, Format(rest, args))
  {
    assert ("%s" + rest)[2..] == rest;
    assert ([arg] + args)[1..] == args;
  }
}

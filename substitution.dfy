/**
 * The substitution done by `str.replace(FLUENT_UI_INSERTION_TAG_REGEX, ...)`
 * (app/entry.server.tsx, line 71).
 *
 * The source passes the replacement as a template string, so the language's
 * replacement patterns (`$$`, `$&`, `` $` ``, `$'`, `$1`, `$01`, ...) inside
 * the collected styles are expanded rather than inserted verbatim.
 * `ReplaceAsWritten` models that; `ReplaceFirst` is the literal insertion
 * the code evidently intends, and the one the rest of the model uses. The two
 * agree whenever the styles contain no `$`.
 */
module Substitution {
  import opened Wrappers
  import opened Marker

  predicate IsDigit(c: char) {
    '0' <= c <= '9'
  }

  function DigitValue(c: char): nat
    requires IsDigit(c)
  {
    c as int - '0' as int
  }

  /**
   * GetSubstitution of ECMA-262 (the 2023 and later editions): the text put
   * in place of a match for the replacement template `template`, given the
   * matched text, the text before and after it, and the capture groups (None
   * for a group that did not take part). There are no named groups, so `$<`
   * is literal text.
   */
  function Expand(template: string, matched: string, before: string, after: string,
                  captures: seq<Option<string>>): string
    decreases |template|
  {
    if template == [] then []
    else if template[0] != '$' || |template| == 1 then
      [template[0]] + Expand(template[1..], matched, before, after, captures)
    else
      var c := template[1];
      if c == '$' then "$" + Expand(template[2..], matched, before, after, captures)
      else if c == '&' then matched + Expand(template[2..], matched, before, after, captures)
      else if c == '`' then before + Expand(template[2..], matched, before, after, captures)
      else if c == '\'' then after + Expand(template[2..], matched, before, after, captures)
      else if IsDigit(c) then
        // two digits are read as one group number only when that group exists
        var twoDigits := |template| >= 3 && IsDigit(template[2])
          && DigitValue(c) * 10 + DigitValue(template[2]) <= |captures|;
        var width := if twoDigits then 2 else 1;
        var index := if twoDigits then DigitValue(c) * 10 + DigitValue(template[2]) else DigitValue(c);
        var group :=
          if 1 <= index <= |captures| then
            match captures[index - 1]
            case Some(g) => g
            case None => []
          else template[..1 + width];
        group + Expand(template[1 + width..], matched, before, after, captures)
      else "$" + Expand(template[1..], matched, before, after, captures)
  }

  /** `s.replace(FLUENT_UI_INSERTION_TAG_REGEX, template)` as the source calls it. */
  function ReplaceAsWritten(s: string, template: string): string {
    match Exec(InsertionPattern(), s)
    case None => s
    case Some(f) =>
      var end := f.start + f.length;
      s[..f.start] + Expand(template, s[f.start..end], s[..f.start], s[end..], f.captures) + s[end..]
  }

  /** The first marker of `s` replaced by `replacement`, taken literally; `s` itself when it has none. */
  function ReplaceFirst(s: string, replacement: string): string {
    match Exec(InsertionPattern(), s)
    case None => s
    case Some(f) => s[..f.start] + replacement + s[f.start + f.length..]
  }

  /**
   * What `ReplaceFirst` does, stated without the matcher: when the text has
   * a marker it is cut into the text before the leftmost whitespace variant of
   * the tag, that variant and the rest, and the variant alone is replaced;
   * otherwise nothing changes.
   */
  lemma ReplaceFirstReplacesLeftmostVariant(s: string, replacement: string)
    ensures !HasMarker(s) ==> ReplaceFirst(s, replacement) == s
    ensures HasMarker(s) ==> exists i: nat, n: nat ::
      && LeftmostVariantAt(InsertionPointTag, s, i, n)
      && ReplaceFirst(s, replacement) == s[..i] + replacement + s[i + n..]
  {
    InsertionPointTagWellSeparated();
    ExecFindsLeftmostVariant(InsertionPointTag, s);
    match Exec(InsertionPattern(), s)
    case None =>
    case Some(f) =>
      assert LeftmostVariantAt(InsertionPointTag, s, f.start, f.length);
  }

  /** Text without `$` in front of a template is copied as it is. */
  lemma {:induction false} ExpandLiteralPrefix(a: string, b: string, matched: string, before: string,
                                              after: string, captures: seq<Option<string>>)
    requires '$' !in a
    ensures Expand(a + b, matched, before, after, captures) == a + Expand(b, matched, before, after, captures)
    decreases |a|
  {
    if a == [] {
      assert a + b == b;
    } else {
      assert a[0] in a;
      assert forall c :: c in a[1..] ==> c in a;
      assert (a + b)[0] == a[0] && (a + b)[1..] == a[1..] + b;
      ExpandLiteralPrefix(a[1..], b, matched, before, after, captures);
      assert a == [a[0]] + a[1..];
    }
  }

  /** A template without `$` is inserted verbatim. */
  lemma DollarFreeTemplateIsLiteral(t: string, matched: string, before: string, after: string,
                                    captures: seq<Option<string>>)
    requires '$' !in t
    ensures Expand(t, matched, before, after, captures) == t
  {
    ExpandLiteralPrefix(t, [], matched, before, after, captures);
    assert t + [] == t;
  }

  /** As written and as intended agree whenever the styles hold no `$`. */
  lemma AsWrittenAgreesWithoutDollar(s: string, style: string)
    requires '$' !in style
    ensures ReplaceAsWritten(s, InsertionPointTag + style) == ReplaceFirst(s, InsertionPointTag + style)
  {
    NoDollarInTag();
    DollarFreeReplacementsAgree(s, InsertionPointTag + style);
  }

  /** The insertion-point tag holds no `$`. */
  lemma NoDollarInTag()
    ensures '$' !in InsertionPointTag
  {
    assert '$' !in TagHead && '$' !in TagName && '$' !in TagContent;
  }

  /** A replacement template without `$` gives the same result in both readings. */
  lemma DollarFreeReplacementsAgree(s: string, template: string)
    requires '$' !in template
    ensures ReplaceAsWritten(s, template) == ReplaceFirst(s, template)
  {
    match Exec(InsertionPattern(), s)
    case None =>
    case Some(f) =>
      var end := f.start + f.length;
      DollarFreeTemplateIsLiteral(template, s[f.start..end], s[..f.start], s[end..], f.captures);
  }

  /**
   * The discrepancy: with the styles `$&` and a chunk that is the canonical
   * tag, the code as written emits the tag twice and drops `$&`, where a
   * literal insertion emits the tag followed by `$&`.
   */
  lemma DollarAmpersandRepeatsMarker(t: string, style: string)
    requires t == InsertionPointTag && style == "$&"
    ensures ReplaceAsWritten(t, t + style) == t + t
    ensures ReplaceFirst(t, t + style) == t + style
    ensures ReplaceAsWritten(t, t + style) != ReplaceFirst(t, t + style)
  {
    InsertionPointTagWellSeparated();
    ExecFindsWholeTag(t);
    NoDollarInTag();
    WholeTextMatch(t, t + style);
    var captures := Exec(InsertionPattern(), t).value.captures;
    ExpandLiteralPrefix(t, style, t, [], [], captures);
    ExpandMatchedText(t, [], [], captures);
    assert |t + t| != |t + style|;
  }

  /** When the whole text is the leftmost match, both replacements see an empty text before and after it. */
  lemma WholeTextMatch(s: string, template: string)
    requires Exec(InsertionPattern(), s).Some?
    requires Exec(InsertionPattern(), s).value.start == 0 && Exec(InsertionPattern(), s).value.length == |s|
    ensures ReplaceAsWritten(s, template) == Expand(template, s, [], [], Exec(InsertionPattern(), s).value.captures)
    ensures ReplaceFirst(s, template) == template
  {
    assert s[..0] == [] && s[0..|s|] == s && s[|s|..] == [];
    assert [] + template + [] == template;
  }

  /** The template `$&` stands for the matched text. */
  lemma ExpandMatchedText(matched: string, before: string, after: string, captures: seq<Option<string>>)
    ensures Expand("$&", matched, before, after, captures) == matched
  {
    var t := "$&";
    assert |t| == 2 && t[0] == '$' && t[1] == '&' && t[2..] == [];
    assert Expand(t[2..], matched, before, after, captures) == [];
    assert matched + [] == matched;
  }
}

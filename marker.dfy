/**
 * The style-insertion marker and the regular expression built from it
 * (app/entry.server.tsx, lines 20-23).
 *
 * The source takes the literal tag, replaces each space by `(\s)*` and hands
 * the result to `new RegExp`. The tag holds no other regular-expression
 * syntax, so the pattern is a sequence of literal characters and greedy
 * whitespace gaps. This module models exactly that class of patterns: the
 * pattern (`Compile`), the backtracking matcher a JavaScript engine runs on it
 * (`MatchPrefix`, `TryGap`), the leftmost search done by `test`, `exec` and a
 * non-global `replace` (`Exec`), and a declarative description of the text it
 * accepts (`IsVariant`), with the proof that the two agree.
 */
module Marker {
  import opened Wrappers

  /** The marker the document template carries; the canonical form the styles are injected after. */
  // It reads `<meta name="fluentui-insertion-point" content="fluentui-insertion-point"/>`;
  // it is spelled out from its three space-free pieces so that the positions
  // of its two spaces are evident to the verifier.
  const InsertionPointTag: string := TagHead + " " + TagName + " " + TagContent

  const TagHead: string := "<meta"
  const TagName: string := "name=\"fluentui-insertion-point\""
  const TagContent: string := "content=\"fluentui-insertion-point\"/>"

  /**
   * The characters the class escape `\s` matches in ECMAScript: the WhiteSpace
   * code points (tab, vertical tab, form feed, space, no-break space, the
   * byte-order mark and every Unicode space separator) and the
   * LineTerminator code points (line feed, carriage return, line and
   * paragraph separator).
   */
  predicate IsJsWhitespace(c: char) {
    var n := c as int;
    n == 0x09 || n == 0x0A || n == 0x0B || n == 0x0C || n == 0x0D || n == 0x20
    || n == 0xA0 || n == 0x1680 || (0x2000 <= n <= 0x200A) || n == 0x2028 || n == 0x2029
    || n == 0x202F || n == 0x205F || n == 0x3000 || n == 0xFEFF
  }

  predicate AllWhitespace(s: string) {
    forall i :: 0 <= i < |s| ==> IsJsWhitespace(s[i])
  }

  /** One element of the pattern: a literal character, or the group `(\s)*`. */
  datatype Token = Char(c: char) | Gap

  type Pattern = seq<Token>

  /**
   * `tag.replaceAll(" ", "(\\s)*")` read as a regular expression: every space
   * becomes a whitespace gap, every other character stands for itself. This
   * reading is right only for tags without regular-expression syntax
   * characters, which the insertion-point tag is.
   */
  function Compile(tag: string): (p: Pattern)
    ensures |p| == |tag|
    ensures forall i :: 0 <= i < |tag| ==> p[i] == if tag[i] == ' ' then Gap else Char(tag[i])
  {
    if tag == [] then [] else [if tag[0] == ' ' then Gap else Char(tag[0])] + Compile(tag[1..])
  }

  /** The number of groups `(\s)` in the pattern, i.e. of capture groups. */
  function GapCount(p: Pattern): nat {
    if p == [] then 0 else (if p[0] == Gap then 1 else 0) + GapCount(p[1..])
  }

  /** The length of the longest run of `\s` characters at the start of `s`. */
  function WhitespaceRun(s: string): (n: nat)
    ensures n <= |s|
    ensures AllWhitespace(s[..n])
    ensures n < |s| ==> !IsJsWhitespace(s[n])
  {
    if s != [] && IsJsWhitespace(s[0]) then
      var n := 1 + WhitespaceRun(s[1..]);
      assert forall i :: 1 <= i < n ==> s[..n][i] == s[1..][..n - 1][i - 1];
      n
    else 0
  }

  /**
   * A successful match at a fixed start: how many characters it consumes and
   * what each capture group holds (None when its `(\s)*` iterated zero times,
   * otherwise the whitespace character of the last iteration).
   */
  datatype MatchResult = MatchResult(length: nat, captures: seq<Option<string>>)

  /**
   * The match a backtracking regular-expression engine finds when `p` is
   * tried at the very start of `s`. Literal characters must be equal; the
   * greedy `(\s)*` first takes the longest whitespace run and gives back one
   * character at a time until the rest of the pattern matches (`TryGap`).
   */
  function MatchPrefix(p: Pattern, s: string): (r: Option<MatchResult>)
    ensures r.Some? ==> r.value.length <= |s| && |r.value.captures| == GapCount(p)
    decreases |p|, 1, 0
  {
    if p == [] then Some(MatchResult(0, []))
    else match p[0]
      case Char(c) =>
        if s != [] && s[0] == c then
          match MatchPrefix(p[1..], s[1..])
          case Some(m) => Some(MatchResult(m.length + 1, m.captures))
          case None => None
        else None
      case Gap => TryGap(p[1..], s, WhitespaceRun(s))
  }

  /** The greedy gap holding `k` characters of `s`, then backing off. */
  function TryGap(rest: Pattern, s: string, k: nat): (r: Option<MatchResult>)
    requires k <= |s|
    ensures r.Some? ==> r.value.length <= |s| && |r.value.captures| == GapCount(rest) + 1
    decreases |rest| + 1, 0, k
  {
    match MatchPrefix(rest, s[k..])
    case Some(m) =>
      var group := if k == 0 then None else Some([s[k - 1]]);
      Some(MatchResult(k + m.length, [group] + m.captures))
    case None => if k == 0 then None else TryGap(rest, s, k - 1)
  }

  /** The leftmost match found by `RegExp.prototype.exec` without the `g` or `y` flag. */
  datatype Found = Found(start: nat, length: nat, captures: seq<Option<string>>)

  function SearchFrom(p: Pattern, s: string, i: nat): (r: Option<Found>)
    requires i <= |s|
    ensures r.Some? ==> i <= r.value.start && r.value.start + r.value.length <= |s|
    ensures r.Some? ==> MatchPrefix(p, s[r.value.start..]) == Some(MatchResult(r.value.length, r.value.captures))
    decreases |s| - i
  {
    match MatchPrefix(p, s[i..])
    case Some(m) => Some(Found(i, m.length, m.captures))
    case None => if i == |s| then None else SearchFrom(p, s, i + 1)
  }

  /** No position before the one the search returns matches; when it returns nothing, no position matches. */
  lemma {:induction false} SearchFromIsLeftmost(p: Pattern, s: string, i: nat)
    requires i <= |s|
    ensures SearchFrom(p, s, i).Some? ==>
      forall j :: i <= j < SearchFrom(p, s, i).value.start ==> MatchPrefix(p, s[j..]).None?
    ensures SearchFrom(p, s, i).None? ==> forall j :: i <= j <= |s| ==> MatchPrefix(p, s[j..]).None?
    decreases |s| - i
  {
    if MatchPrefix(p, s[i..]).None? && i < |s| {
      SearchFromIsLeftmost(p, s, i + 1);
      var r := SearchFrom(p, s, i + 1);
      assert SearchFrom(p, s, i) == r;
      forall j | i <= j <= |s| && (r.None? || j < r.value.start) ensures MatchPrefix(p, s[j..]).None? {
        if j == i {
        } else {
          assert i + 1 <= j;
        }
      }
    }
  }

  /** `exec` on the whole string: the leftmost start position first. */
  function Exec(p: Pattern, s: string): Option<Found> {
    SearchFrom(p, s, 0)
  }

  /** `FLUENT_UI_INSERTION_TAG_REGEX` */
  function InsertionPattern(): Pattern {
    Compile(InsertionPointTag)
  }

  /**
   * The declarative reading of the pattern: `w` is `tag` with every space
   * replaced by a run of whitespace (possibly empty, possibly longer than one
   * character) and every other character kept as it is.
   */
  ghost predicate IsVariant(tag: string, w: string)
    decreases |tag|
  {
    if tag == [] then w == []
    else if tag[0] == ' ' then
      exists k :: 0 <= k <= |w| && AllWhitespace(w[..k]) && IsVariant(tag[1..], w[k..])
    else w != [] && w[0] == tag[0] && IsVariant(tag[1..], w[1..])
  }

  /**
   * Every space of the tag is followed by a non-whitespace character. Then a
   * gap can only end where that character starts, so each gap matches exactly
   * the maximal whitespace run and the match at a given start is unique.
   */
  predicate GapsWellSeparated(tag: string) {
    forall i {:trigger tag[i]} :: 0 <= i < |tag| ==> (tag[i] == ' ' ==> i + 1 < |tag| && !IsJsWhitespace(tag[i + 1]))
  }

  /** Number of characters of `tag` that are not spaces: the shortest match is this long. */
  function NonSpaceCount(tag: string): nat {
    if tag == [] then 0 else (if tag[0] == ' ' then 0 else 1) + NonSpaceCount(tag[1..])
  }

  lemma WellSeparatedTail(tag: string)
    requires tag != [] && GapsWellSeparated(tag)
    ensures GapsWellSeparated(tag[1..])
  {
    forall i | 0 <= i < |tag[1..]|
      ensures tag[1..][i] == ' ' ==> i + 1 < |tag[1..]| && !IsJsWhitespace(tag[1..][i + 1])
    {
      assert tag[1..][i] == tag[i + 1];
      if i + 1 < |tag[1..]| { assert tag[1..][i + 1] == tag[i + 2]; }
    }
  }

  /** Below the maximal run, a gap followed by a non-whitespace literal cannot end. */
  lemma {:induction false} TryGapBelowRun(rest: Pattern, s: string, k: nat)
    requires rest != [] && rest[0].Char? && !IsJsWhitespace(rest[0].c)
    requires k < |s| && forall i :: 0 <= i <= k ==> IsJsWhitespace(s[i])
    ensures TryGap(rest, s, k) == None
  {
    assert s[k..][0] == s[k];
    assert MatchPrefix(rest, s[k..]) == None;
    if k > 0 {
      TryGapBelowRun(rest, s, k - 1);
    }
  }

  /** With a non-whitespace literal after it, the greedy gap takes exactly the maximal run. */
  lemma GapTakesMaximalRun(rest: Pattern, s: string)
    requires rest != [] && rest[0].Char? && !IsJsWhitespace(rest[0].c)
    ensures var m := WhitespaceRun(s);
      MatchPrefix([Gap] + rest, s) ==
        match MatchPrefix(rest, s[m..])
        case Some(r) => Some(MatchResult(m + r.length, [if m == 0 then None else Some([s[m - 1]])] + r.captures))
        case None => None
  {
    var m := WhitespaceRun(s);
    assert ([Gap] + rest)[1..] == rest;
    if MatchPrefix(rest, s[m..]).None? && m > 0 {
      forall i | 0 <= i <= m - 1 ensures IsJsWhitespace(s[i]) {
        assert s[..m][i] == s[i];
      }
      TryGapBelowRun(rest, s, m - 1);
    }
  }

  /** A run that is all whitespace and is followed by a non-whitespace character is the maximal run. */
  lemma RunIsMaximal(s: string, k: nat)
    requires k < |s| && AllWhitespace(s[..k]) && !IsJsWhitespace(s[k])
    ensures WhitespaceRun(s) == k
  {
    var m := WhitespaceRun(s);
    assert forall i :: 0 <= i < k ==> IsJsWhitespace(s[i]) by {
      forall i | 0 <= i < k ensures IsJsWhitespace(s[i]) { assert s[..k][i] == s[i]; }
    }
    assert forall i :: 0 <= i < m ==> IsJsWhitespace(s[i]) by {
      forall i | 0 <= i < m ensures IsJsWhitespace(s[i]) { assert s[..m][i] == s[i]; }
    }
  }

  /**
   * The matcher agrees with the declarative reading: for a tag whose spaces
   * are well separated, the match at the start of `s` has length `n` exactly
   * when the first `n` characters of `s` are a whitespace variant of the tag.
   */
  lemma {:induction false} MatchPrefixIffVariant(tag: string, s: string, n: nat)
    requires GapsWellSeparated(tag)
    ensures (MatchPrefix(Compile(tag), s).Some? && MatchPrefix(Compile(tag), s).value.length == n)
        <==> (n <= |s| && IsVariant(tag, s[..n]))
    decreases |tag|, 1
  {
    if tag == [] {
      if n <= |s| { assert s[..n] == [] <==> n == 0; }
    } else if tag[0] != ' ' {
      LiteralStepIffVariant(tag, s, n);
    } else {
      GapStepIffVariant(tag, s, n);
    }
  }

  /** `MatchPrefixIffVariant` for a tag that starts with a literal character. */
  lemma {:induction false} LiteralStepIffVariant(tag: string, s: string, n: nat)
    requires GapsWellSeparated(tag) && tag != [] && tag[0] != ' '
    ensures (MatchPrefix(Compile(tag), s).Some? && MatchPrefix(Compile(tag), s).value.length == n)
        <==> (n <= |s| && IsVariant(tag, s[..n]))
    decreases |tag|, 0
  {
    var p := Compile(tag);
    WellSeparatedTail(tag);
    assert p[1..] == Compile(tag[1..]);
    if s != [] && n >= 1 {
      MatchPrefixIffVariant(tag[1..], s[1..], n - 1);
      if n <= |s| {
        assert s[..n][1..] == s[1..][..n - 1];
      }
    }
  }

  /** `MatchPrefixIffVariant` for a tag that starts with a space, i.e. a whitespace gap. */
  lemma {:induction false} GapStepIffVariant(tag: string, s: string, n: nat)
    requires GapsWellSeparated(tag) && tag != [] && tag[0] == ' '
    ensures (MatchPrefix(Compile(tag), s).Some? && MatchPrefix(Compile(tag), s).value.length == n)
        <==> (n <= |s| && IsVariant(tag, s[..n]))
    decreases |tag|, 0
  {
    var p := Compile(tag);
    WellSeparatedTail(tag);
    var rest := Compile(tag[1..]);
    assert p[1..] == rest;
    assert tag[1] != ' ';
    assert p == [Gap] + rest;
    GapTakesMaximalRun(rest, s);
    var m := WhitespaceRun(s);
    if n >= m {
      MatchPrefixIffVariant(tag[1..], s[m..], n - m);
    }
    if n <= |s| {
      GapVariantSplit(tag, s, n);
    }
  }

  /**
   * A prefix of `s` is a variant of a tag that starts with a space exactly
   * when it opens with the maximal whitespace run of `s` and the rest is a
   * variant of the tag's tail.
   */
  lemma GapVariantSplit(tag: string, s: string, n: nat)
    requires GapsWellSeparated(tag) && tag != [] && tag[0] == ' ' && n <= |s|
    ensures var m := WhitespaceRun(s);
      IsVariant(tag, s[..n]) <==> (m <= n && IsVariant(tag[1..], s[m..][..n - m]))
  {
    var m := WhitespaceRun(s);
    if IsVariant(tag, s[..n]) {
      assert 1 < |tag| && !IsJsWhitespace(tag[1]);
      var w := s[..n];
      var k :| 0 <= k <= |w| && AllWhitespace(w[..k]) && IsVariant(tag[1..], w[k..]);
      assert w[k..] != [] && w[k..][0] == tag[1];
      assert s[k] == tag[1];
      assert s[..k] == w[..k];
      RunIsMaximal(s, k);
      assert w[k..] == s[m..][..n - m];
    }
    if m <= n && IsVariant(tag[1..], s[m..][..n - m]) {
      var w := s[..n];
      assert w[..m] == s[..m] && w[m..] == s[m..][..n - m];
    }
  }

  /** Every variant is at least as long as the tag without its spaces. */
  lemma {:induction false} VariantLength(tag: string, w: string)
    requires IsVariant(tag, w)
    ensures |w| >= NonSpaceCount(tag)
    decreases |tag|
  {
    if tag != [] {
      if tag[0] == ' ' {
        var k :| 0 <= k <= |w| && AllWhitespace(w[..k]) && IsVariant(tag[1..], w[k..]);
        VariantLength(tag[1..], w[k..]);
      } else {
        VariantLength(tag[1..], w[1..]);
      }
    }
  }

  /** The tag is a variant of itself: each space is a run of one whitespace character. */
  lemma {:induction false} TagIsOwnVariant(tag: string)
    ensures IsVariant(tag, tag)
    decreases |tag|
  {
    if tag != [] {
      TagIsOwnVariant(tag[1..]);
      if tag[0] == ' ' {
        assert AllWhitespace(tag[..1]);
      }
    }
  }

  /** A tag made of three space-free pieces joined by single spaces is well separated. */
  lemma JoinedPiecesWellSeparated(head: string, name: string, content: string)
    requires ' ' !in head && ' ' !in name && ' ' !in content
    requires name != [] && !IsJsWhitespace(name[0]) && content != [] && !IsJsWhitespace(content[0])
    ensures GapsWellSeparated(head + " " + name + " " + content)
  {
    var t := head + " " + name + " " + content;
    var a, b := |head|, |head| + 1 + |name|;
    forall i | 0 <= i < |t| ensures t[i] == ' ' ==> i + 1 < |t| && !IsJsWhitespace(t[i + 1]) {
      if i < a {
        assert t[i] == head[i];
      } else if i == a {
        assert t[i + 1] == name[0];
      } else if i < b {
        assert t[i] == name[i - a - 1];
      } else if i == b {
        assert t[i + 1] == content[0];
      } else {
        assert t[i] == content[i - b - 1];
      }
    }
  }

  /** The insertion-point tag meets the condition under which matching is unique. */
  lemma InsertionPointTagWellSeparated()
    ensures GapsWellSeparated(InsertionPointTag)
  {
    assert ' ' !in TagHead && ' ' !in TagName && ' ' !in TagContent;
    JoinedPiecesWellSeparated(TagHead, TagName, TagContent);
  }

  lemma {:induction false} NonSpaceCountAppend(a: string, b: string)
    ensures NonSpaceCount(a + b) == NonSpaceCount(a) + NonSpaceCount(b)
    decreases |a|
  {
    if a != [] {
      assert (a + b)[1..] == a[1..] + b;
      NonSpaceCountAppend(a[1..], b);
    } else {
      assert a + b == b;
    }
  }

  lemma {:induction false} NonSpaceCountOfSpaceFree(a: string)
    requires ' ' !in a
    ensures NonSpaceCount(a) == |a|
    decreases |a|
  {
    if a != [] {
      assert a[0] in a;
      assert forall c :: c in a[1..] ==> c in a;
      NonSpaceCountOfSpaceFree(a[1..]);
    }
  }

  lemma JoinedPiecesNonSpaceCount(head: string, name: string, content: string)
    requires ' ' !in head && ' ' !in name && ' ' !in content
    ensures NonSpaceCount(head + " " + name + " " + content) == |head| + |name| + |content|
  {
    NonSpaceCountOfSpaceFree(head);
    NonSpaceCountOfSpaceFree(name);
    NonSpaceCountOfSpaceFree(content);
    assert NonSpaceCount(" ") == 0;
    NonSpaceCountAppend(head, " ");
    NonSpaceCountAppend(head + " ", name);
    NonSpaceCountAppend(head + " " + name, " ");
    NonSpaceCountAppend(head + " " + name + " ", content);
  }

  /** `new RegExp(<tag with each space replaced by (\s)*>).test(s)` */
  predicate Matches(tag: string, s: string) {
    Exec(Compile(tag), s).Some?
  }

  /** The `n` characters of `s` from position `i` on are a whitespace variant of `tag`. */
  ghost predicate VariantAt(tag: string, s: string, i: nat, n: nat) {
    i + n <= |s| && IsVariant(tag, s[i..i + n])
  }

  /** A variant of the tag starts at `i` and covers `n` characters, and none starts earlier. */
  ghost predicate LeftmostVariantAt(tag: string, s: string, i: nat, n: nat) {
    VariantAt(tag, s, i, n) && forall j: nat, m: nat :: j < i ==> !VariantAt(tag, s, j, m)
  }

  /** The match found at `i` has length `n` exactly when a variant of the tag of that length starts there. */
  lemma MatchAtIffVariantAt(tag: string, s: string, i: nat, n: nat)
    requires GapsWellSeparated(tag) && i <= |s|
    ensures (MatchPrefix(Compile(tag), s[i..]).Some? && MatchPrefix(Compile(tag), s[i..]).value.length == n)
        <==> VariantAt(tag, s, i, n)
  {
    MatchPrefixIffVariant(tag, s[i..], n);
    if i + n <= |s| {
      assert s[i..][..n] == s[i..i + n];
    }
  }

  /**
   * What `exec` finds: the match starts at the leftmost position at which a
   * variant of the tag starts and covers that variant; when there is none,
   * no slice of `s` is a variant.
   */
  lemma ExecFindsLeftmostVariant(tag: string, s: string)
    requires GapsWellSeparated(tag)
    ensures match Exec(Compile(tag), s)
      case Some(f) =>
        && VariantAt(tag, s, f.start, f.length)
        && forall j: nat, n: nat :: j < f.start ==> !VariantAt(tag, s, j, n)
      case None =>
        forall j: nat, n: nat :: !VariantAt(tag, s, j, n)
  {
    SearchFromIsLeftmost(Compile(tag), s, 0);
    match Exec(Compile(tag), s)
    case Some(f) =>
      MatchAtIffVariantAt(tag, s, f.start, f.length);
      forall j: nat, n: nat | j < f.start ensures !VariantAt(tag, s, j, n) {
        MatchAtIffVariantAt(tag, s, j, n);
      }
    case None =>
      forall j: nat, n: nat ensures !VariantAt(tag, s, j, n) {
        if j <= |s| {
          MatchAtIffVariantAt(tag, s, j, n);
        }
      }
  }

  /** What `test` means: `s` holds a match exactly when some slice of it is a variant of the tag. */
  lemma MatchesIffSomeVariant(tag: string, s: string)
    requires GapsWellSeparated(tag)
    ensures Matches(tag, s) <==> exists i: nat, n: nat :: VariantAt(tag, s, i, n)
  {
    ExecFindsLeftmostVariant(tag, s);
  }

  /** The tag itself is matched wherever it occurs. */
  lemma TagMatchesItself(tag: string, before: string, after: string)
    requires GapsWellSeparated(tag)
    ensures Matches(tag, before + tag + after)
  {
    var s := before + tag + after;
    TagIsOwnVariant(tag);
    assert s[|before|..|before| + |tag|] == tag;
    assert VariantAt(tag, s, |before|, |tag|);
    MatchesIffSomeVariant(tag, s);
  }

  /** Text shorter than the tag without its spaces cannot hold a match. */
  lemma ShortTextDoesNotMatch(tag: string, s: string)
    requires GapsWellSeparated(tag) && |s| < NonSpaceCount(tag)
    ensures !Matches(tag, s)
  {
    MatchesIffSomeVariant(tag, s);
    forall i: nat, n: nat ensures !VariantAt(tag, s, i, n) {
      if VariantAt(tag, s, i, n) {
        VariantLength(tag, s[i..i + n]);
      }
    }
  }

  /** A space-free piece in front of a variant extends it literally. */
  lemma {:induction false} VariantAppendLiteral(piece: string, tag: string, w: string)
    requires ' ' !in piece && IsVariant(tag, w)
    ensures IsVariant(piece + tag, piece + w)
    decreases |piece|
  {
    if piece != [] {
      assert piece[0] in piece;
      assert forall c :: c in piece[1..] ==> c in piece;
      VariantAppendLiteral(piece[1..], tag, w);
      assert (piece + tag)[0] == piece[0] != ' ';
      assert (piece + w)[0] == piece[0];
      assert (piece + tag)[1..] == piece[1..] + tag;
      assert (piece + w)[1..] == piece[1..] + w;
    } else {
      assert piece + tag == tag && piece + w == w;
    }
  }

  /** A whitespace run in front of a variant stands for a leading space of the tag. */
  lemma VariantPrependGap(tag: string, gap: string, w: string)
    requires AllWhitespace(gap) && IsVariant(tag, w)
    ensures IsVariant(" " + tag, gap + w)
  {
    var t, v := " " + tag, gap + w;
    assert t[0] == ' ' && t[1..] == tag;
    assert v[..|gap|] == gap && v[|gap|..] == w;
  }

  /** Space-free pieces joined by whitespace runs form a variant of the pieces joined by spaces. */
  lemma JoinedPiecesVariant(head: string, name: string, content: string, gap1: string, gap2: string)
    requires ' ' !in head && ' ' !in name
    requires AllWhitespace(gap1) && AllWhitespace(gap2)
    ensures IsVariant(head + " " + name + " " + content, head + gap1 + name + gap2 + content)
  {
    var c2, w2 := " " + content, gap2 + content;
    TagIsOwnVariant(content);
    VariantPrependGap(content, gap2, content);
    var n2, v2 := name + c2, name + w2;
    VariantAppendLiteral(name, c2, w2);
    var n1, v1 := " " + n2, gap1 + v2;
    VariantPrependGap(n2, gap1, v2);
    VariantAppendLiteral(head, n1, v1);
    JoinAssociates(head, " ", name, " ", content);
    JoinAssociates(head, gap1, name, gap2, content);
  }

  /** Regrouping a five-part concatenation to the right, in its own small proof obligation. */
  lemma JoinAssociates(a: string, b: string, c: string, d: string, e: string)
    ensures a + b + c + d + e == a + (b + (c + (d + e)))
  {
  }

  // The insertion-point tag in particular.

  /** `FLUENT_UI_INSERTION_TAG_REGEX.test(s)` */
  predicate HasMarker(s: string) {
    Matches(InsertionPointTag, s)
  }

  /** The insertion-point tag without its two spaces is 72 characters long. */
  lemma InsertionPointTagNonSpaceCount()
    ensures NonSpaceCount(InsertionPointTag) == |InsertionPointTag| - 2 == 72
  {
    assert ' ' !in TagHead && ' ' !in TagName && ' ' !in TagContent;
    JoinedPiecesNonSpaceCount(TagHead, TagName, TagContent);
  }

  /**
   * A reformatted marker is still found: the first space widened to a line
   * break and a tab, the second one removed.
   */
  lemma ReformattedTagMatches()
    ensures IsVariant(InsertionPointTag, TagHead + "\n\t" + TagName + TagContent)
    ensures HasMarker(TagHead + "\n\t" + TagName + TagContent)
  {
    var w := TagHead + "\n\t" + TagName + TagContent;
    assert ' ' !in TagHead && ' ' !in TagName;
    assert AllWhitespace("\n\t") && AllWhitespace("");
    JoinedPiecesVariant(TagHead, TagName, TagContent, "\n\t", "");
    assert w == TagHead + "\n\t" + TagName + "" + TagContent;
    InsertionPointTagWellSeparated();
    assert w[0..0 + |w|] == w;
    assert VariantAt(InsertionPointTag, w, 0, |w|);
    MatchesIffSomeVariant(InsertionPointTag, w);
  }

  /**
   * Matching is local to a chunk: the tag cut in two at its second space
   * gives two pieces of which neither holds a marker, although joined they
   * are the canonical tag.
   */
  lemma SplitMarkerIsNotFound()
    ensures (TagHead + " " + TagName) + (" " + TagContent) == InsertionPointTag
    ensures !HasMarker(TagHead + " " + TagName) && !HasMarker(" " + TagContent)
    ensures HasMarker(InsertionPointTag)
  {
    InsertionPointTagWellSeparated();
    InsertionPointTagNonSpaceCount();
    assert |TagHead + " " + TagName| < 72;
    ShortTextDoesNotMatch(InsertionPointTag, TagHead + " " + TagName);
    assert |" " + TagContent| < 72;
    ShortTextDoesNotMatch(InsertionPointTag, " " + TagContent);
    TagMatchesItself(InsertionPointTag, [], []);
    EmptyAround(InsertionPointTag);
    SplitAssociates(TagHead, " ", TagName, " ", TagContent);
  }

  lemma EmptyAround(s: string)
    ensures [] + s + [] == s
  {
  }

  lemma SplitAssociates(a: string, b: string, c: string, d: string, e: string)
    ensures (a + b + c) + (d + e) == a + b + c + d + e
  {
  }

  /** Text that starts with the tag itself has its leftmost match at 0, covering exactly the tag. */
  lemma ExecFindsTagAtStart(tag: string, rest: string)
    requires GapsWellSeparated(tag)
    ensures var r := Exec(Compile(tag), tag + rest);
      r.Some? && r.value.start == 0 && r.value.length == |tag|
  {
    var s := tag + rest;
    TagIsOwnVariant(tag);
    assert s[0..0 + |tag|] == tag;
    MatchAtIffVariantAt(tag, s, 0, |tag|);
    assert s[0..] == s;
  }

  /** Text that is the tag itself is matched as a whole. */
  lemma ExecFindsWholeTag(tag: string)
    requires GapsWellSeparated(tag)
    ensures var r := Exec(Compile(tag), tag);
      r.Some? && r.value.start == 0 && r.value.length == |tag|
  {
    ExecFindsTagAtStart(tag, []);
    assert tag + [] == tag;
  }
}

/** The minimal Markdown-to-HTML converter used for the static pages. It is
    a pipeline of regular-expression rewrites; each rewrite is modelled as a
    left-to-right scanner that, like a global `replace`, tries a match at
    each position, substitutes it and resumes after it, and otherwise copies
    one character. `.` never matches a line terminator, `\s` matches white
    space and line terminators, and `^`/`$` under the `m` flag see any line
    terminator as a line boundary. */
module Markdown {
  import opened Wrappers
  import opened Js

  // ---------------------------------------------------------------------
  // Scanning primitives

  /** `\s*` at the start of `s`: the length of the longest white-space prefix. */
  function SpaceRun(s: string): (n: nat)
    ensures n <= |s|
    ensures n == |s| || !IsSpace(s[n])
  {
    if s != [] && IsSpace(s[0]) then 1 + SpaceRun(s[1..]) else 0
  }

  /** `.*` at the start of `s`: the length of the current line. */
  function LineLength(s: string): (n: nat)
    ensures n <= |s|
    ensures n == |s| || IsLineTerminator(s[n])
  {
    if s != [] && !IsLineTerminator(s[0]) then 1 + LineLength(s[1..]) else 0
  }

  /** The line holds no line terminator. */
  lemma {:induction false} LineLengthFirst(s: string)
    ensures forall i :: 0 <= i < LineLength(s) ==> !IsLineTerminator(s[i])
    decreases |s|
  {
    if s != [] && !IsLineTerminator(s[0]) {
      LineLengthFirst(s[1..]);
      assert forall i :: 1 <= i < |s| ==> s[i] == s[1..][i - 1];
    }
  }

  /** `.*?` followed by `pat`: the first position of the current line where
      `pat` occurs, or `None` when the line ends first. */
  function FindOnLine(s: string, pat: string): (r: Option<nat>)
    ensures r.Some? ==> r.value + |pat| <= |s|
  {
    if StartsWith(s, pat) then Some(0)
    else if s == [] || IsLineTerminator(s[0]) then None
    else match FindOnLine(s[1..], pat)
      case None => None
      case Some(j) => Some(j + 1)
  }

  /** The position found is a match of `pat`, no earlier position of the
      line is, and no line terminator comes before it. */
  lemma {:induction false} FindOnLineFirst(s: string, pat: string)
    requires FindOnLine(s, pat).Some?
    ensures var k := FindOnLine(s, pat).value;
            StartsWith(s[k..], pat) &&
            forall i :: 0 <= i < k ==> !IsLineTerminator(s[i]) && !StartsWith(s[i..], pat)
    decreases |s|
  {
    if !StartsWith(s, pat) {
      FindOnLineFirst(s[1..], pat);
      assert forall i :: 1 <= i <= |s| ==> s[i..] == s[1..][i - 1..];
    }
  }

  /** `\d+` at the start of `s`: the length of the longest digit prefix. */
  function DigitRun(s: string): (n: nat)
    ensures n <= |s| && (n == |s| || !IsDigit(s[n]))
    ensures n > 0 ==> IsDigit(s[0])
  {
    if s != [] && IsDigit(s[0]) then 1 + DigitRun(s[1..]) else 0
  }

  // ---------------------------------------------------------------------
  // Inline rewrites (global, not anchored)

  datatype Inline = Image | Strong | Em | Code | Link

  /** The character every match of a rule starts with. */
  function Opener(rule: Inline): char {
    match rule
    case Image => '!'
    case Strong => '*'
    case Em => '*'
    case Code => '`'
    case Link => '['
  }

  /** `(.*?)\]\((.*?)\)`: the text up to the first `](` of the line, then
      the text up to the first `)` after it, and the length matched. */
  function Brackets(rest: string): (r: Option<(string, string, nat)>)
    ensures r.Some? ==> r.value.2 <= |rest|
  {
    match FindOnLine(rest, "](")
    case None => None
    case Some(a) =>
      var after := rest[a + 2..];
      match FindOnLine(after, ")")
      case None => None
      case Some(b) => Some((rest[..a], after[..b], a + 2 + b + 1))
  }

  /** `opener(.*?)\]\((.*?)\)`, for the openers `![` and `[`. */
  function Bracketed(s: string, opener: string): (r: Option<(string, string, nat)>)
    ensures r.Some? ==> 0 < r.value.2 <= |s|
    ensures r.Some? ==> opener != [] && s[0] == opener[0]
  {
    if !StartsWith(s, opener) || opener == [] then None
    else
      assert s[0] == s[..|opener|][0];
      match Brackets(s[|opener|..])
      case None => None
      case Some(m) => Some((m.0, m.1, |opener| + m.2))
  }

  function ImageTag(alt: string, src: string): string {
    "<img src=\"" + src + "\" alt=\"" + alt + "\" />"
  }

  function Anchor(text: string, href: string): string {
    "<a href=\"" + href + "\" target=\"_blank\" rel=\"noopener noreferrer\">" + text + "</a>"
  }

  /** `` `[^`]+` ``: the position of the next backtick, which must leave at
      least one character between the two (the text may span lines). */
  function NextBacktick(s: string): (r: Option<nat>)
    ensures r.Some? ==> r.value < |s| && s[r.value] == '`' && '`' !in s[..r.value]
    ensures r.None? ==> '`' !in s
  {
    if s == [] then None
    else if s[0] == '`' then Some(0)
    else match NextBacktick(s[1..])
      case None => None
      case Some(j) => assert s[..j + 1] == [s[0]] + s[1..][..j]; Some(j + 1)
  }

  /** `\*\*(.*?)\*\*`, and with `delim` a single star `\*(.*?)\*`: the text
      up to the next delimiter on the line is wrapped in the element. */
  function Delimited(s: string, delim: string, open: string, close: string): (r: Option<(string, nat)>)
    ensures r.Some? ==> 0 < r.value.1 <= |s| && delim != [] && s[0] == delim[0]
  {
    if delim == [] || !StartsWith(s, delim) then None
    else
      assert s[0] == s[..|delim|][0];
      match FindOnLine(s[|delim|..], delim)
      case None => None
      case Some(j) => Some((open + s[|delim|..|delim| + j] + close, j + 2 * |delim|))
  }

  function CodeAt(s: string): (r: Option<(string, nat)>)
    ensures r.Some? ==> 0 < r.value.1 <= |s| && s[0] == '`'
  {
    if s == [] || s[0] != '`' then None
    else
      match NextBacktick(s[1..])
      case None => None
      case Some(j) => if j == 0 then None else Some(("<code>" + s[1..1 + j] + "</code>", j + 2))
  }

  function BracketedAt(s: string, opener: string, image: bool): (r: Option<(string, nat)>)
    ensures r.Some? ==> 0 < r.value.1 <= |s| && opener != [] && s[0] == opener[0]
  {
    match Bracketed(s, opener)
    case None => None
    case Some(m) => Some((if image then ImageTag(m.0, m.1) else Anchor(m.0, m.1), m.2))
  }

  /** A match of the rule at the start of `s`: the replacement text and the
      number of characters it replaces. */
  function MatchAt(rule: Inline, s: string): (r: Option<(string, nat)>)
    ensures r.Some? ==> 0 < r.value.1 <= |s| && s[0] == Opener(rule)
  {
    match rule
    case Image => BracketedAt(s, "![", true)
    case Link => BracketedAt(s, "[", false)
    case Strong => Delimited(s, "**", "<strong>", "</strong>")
    case Em => Delimited(s, "*", "<em>", "</em>")
    case Code => CodeAt(s)
  }

  /** `s.replace(regex, replacement)` with the `g` flag. */
  function ReplaceAll(rule: Inline, s: string): string
    decreases |s|
  {
    if s == [] then []
    else match MatchAt(rule, s)
      case Some(m) => m.0 + ReplaceAll(rule, s[m.1..])
      case None => [s[0]] + ReplaceAll(rule, s[1..])
  }

  // ---------------------------------------------------------------------
  // Line rewrites (flags `gm`: anchored at the start of a line)

  datatype LineRule = H3 | H2 | H1 | Quote | Rule

  /** `^marker\s+(.*)$`: the marker, white space (which may run over line
      breaks), then the rest of that line, which becomes the element's text. */
  function Prefixed(s: string, marker: string, open: string, close: string): (r: Option<(string, nat)>)
    requires marker != []
    ensures r.Some? ==> 0 < r.value.1 <= |s| && s[0] == marker[0]
  {
    if !StartsWith(s, marker) || |s| == |marker| || !IsSpace(s[|marker|]) then None
    else
      assert s[0] == s[..|marker|][0];
      var w := |marker| + SpaceRun(s[|marker|..]);
      var e := w + LineLength(s[w..]);
      Some((open + s[w..e] + close, e))
  }

  function MatchLine(rule: LineRule, s: string): (r: Option<(string, nat)>)
    ensures r.Some? ==> 0 < r.value.1 <= |s|
    ensures r.Some? ==> s[0] == '#' || s[0] == '>' || s[0] == '-'
  {
    match rule
    case H3 => Prefixed(s, "###", "<h3>", "</h3>")
    case H2 => Prefixed(s, "##", "<h2>", "</h2>")
    case H1 => Prefixed(s, "#", "<h1>", "</h1>")
    case Quote => Prefixed(s, ">", "<blockquote>", "</blockquote>")
    case Rule =>
      if StartsWith(s, "---") && (|s| == 3 || IsLineTerminator(s[3])) then Some(("<hr />", 3)) else None
  }

  /** `s.replace(regex, replacement)` with the `gm` flags; `atStart` says
      whether the scan is at the start of a line. */
  function ReplaceLines(rule: LineRule, s: string, atStart: bool): string
    decreases |s|
  {
    if s == [] then []
    else if atStart && MatchLine(rule, s).Some? then
      var m := MatchLine(rule, s).value;
      m.0 + ReplaceLines(rule, s[m.1..], false)
    else [s[0]] + ReplaceLines(rule, s[1..], IsLineTerminator(s[0]))
  }

  // ---------------------------------------------------------------------
  // Lists

  datatype ListKind = Bullet | Numbered

  /** The item marker at the start of `s`: `-`, or `\d+\.`; its length. */
  function MarkerLength(kind: ListKind, s: string): (r: Option<nat>)
    ensures r.Some? ==> 0 < r.value <= |s|
    ensures r.Some? && kind == Bullet ==> s[0] == '-'
    ensures r.Some? && kind == Numbered ==> IsDigit(s[0])
  {
    match kind
    case Bullet => if s != [] && s[0] == '-' then Some(1) else None
    case Numbered =>
      var d := DigitRun(s);
      if d > 0 && d < |s| && s[d] == '.' then Some(d + 1) else None
  }

  /** `marker\s+`: the marker and the white space after it; its length. */
  function ItemHead(kind: ListKind, s: string): (r: Option<nat>)
    ensures r.Some? ==> 0 < r.value <= |s| && MarkerLength(kind, s).Some?
  {
    match MarkerLength(kind, s)
    case None => None
    case Some(m) =>
      if m < |s| && IsSpace(s[m]) then Some(m + SpaceRun(s[m..])) else None
  }

  /** `(?:\nmarker\s+.*)*`: the length of the further items. */
  function ListTail(kind: ListKind, s: string): (n: nat)
    ensures n <= |s|
    decreases |s|
  {
    if s != [] && s[0] == '\n' && ItemHead(kind, s[1..]).Some? then
      var h := ItemHead(kind, s[1..]).value;
      var e := 1 + h + LineLength(s[1 + h..]);
      e + ListTail(kind, s[e..])
    else 0
  }

  /** A list at the start of `s` (`marker(\s+.*(?:\nmarker\s+.*)*)`): the
      marker length and the end of the match. */
  function ListAt(kind: ListKind, s: string): (r: Option<(nat, nat)>)
    ensures r.Some? ==> r.value.0 < r.value.1 <= |s| && MarkerLength(kind, s) == Some(r.value.0)
  {
    match ItemHead(kind, s)
    case None => None
    case Some(h) => Some((MarkerLength(kind, s).value, h + ListEnd(kind, s[h..])))
  }

  /** Where the list ends within the text after the first item head: the
      rest of that line, then the further items. */
  function ListEnd(kind: ListKind, rest: string): (n: nat)
    ensures n <= |rest|
  {
    LineLength(rest) + ListTail(kind, rest[LineLength(rest)..])
  }

  function Li(item: string): string {
    "<li>" + item + "</li>"
  }

  function Lis(items: seq<string>): string {
    if items == [] then "" else Li(items[0]) + Lis(items[1..])
  }

  /** The list callback: the captured text trimmed, split at the item
      separators, each piece stripped of a leading marker and trimmed, empty
      items dropped, each wrapped in `<li>`. */
  function ListItems(kind: ListKind, list: string): seq<string> {
    ItemTexts(kind, SplitAll(ItemSep(kind), Trim(list)))
  }

  function ItemTexts(kind: ListKind, pieces: seq<string>): (items: seq<string>)
    ensures forall k :: 0 <= k < |items| ==> items[k] != ""
  {
    if pieces == [] then []
    else
      var p := pieces[0];
      var stripped := match ItemHead(kind, p) case Some(h) => p[h..] case None => p;
      var t := Trim(stripped);
      if t == "" then ItemTexts(kind, pieces[1..]) else [t] + ItemTexts(kind, pieces[1..])
  }

  function ListHtml(kind: ListKind, list: string): string {
    var items := Lis(ListItems(kind, list));
    if kind == Bullet then "<ul>" + items + "</ul>" else "<ol>" + items + "</ol>"
  }

  /** The list rewrite (flag `g` only: `^` is the start of the text). Only
      the start of the text or a line break can start a list, so text that
      is past the start and holds no line break is copied. */
  function ReplaceLists(kind: ListKind, s: string, atBegin: bool): (r: string)
    ensures r == [] <==> s == []
    ensures !atBegin && '\n' !in s ==> r == s
    decreases |s|
  {
    if s == [] then []
    else if atBegin && ListAt(kind, s).Some? then
      var m := ListAt(kind, s).value;
      ListHtml(kind, s[m.0..m.1]) + ReplaceLists(kind, s[m.1..], false)
    else if s[0] == '\n' && ListAt(kind, s[1..]).Some? then
      var m := ListAt(kind, s[1..]).value;
      "\n" + ListHtml(kind, s[1 + m.0..1 + m.1]) + ReplaceLists(kind, s[1 + m.1..], false)
    else
      assert forall c :: c in s[1..] ==> c in s;
      [s[0]] + ReplaceLists(kind, s[1..], false)
  }

  // ---------------------------------------------------------------------
  // Splitting

  /** The separators the converter splits at: `\nmarker\s+` between list
      items and `\n{2,}` between blocks. */
  datatype Separator = ItemSep(kind: ListKind) | BlankLines

  function NewlineRun(s: string): (n: nat)
    ensures n <= |s|
  {
    if s != [] && s[0] == '\n' then 1 + NewlineRun(s[1..]) else 0
  }

  /** A separator at the start of `s`, and its length. */
  function SepAt(sep: Separator, s: string): (r: Option<nat>)
    ensures r.Some? ==> 0 < r.value <= |s| && s[0] == '\n'
  {
    match sep
    case ItemSep(kind) =>
      if s != [] && s[0] == '\n' && ItemHead(kind, s[1..]).Some? then Some(1 + ItemHead(kind, s[1..]).value)
      else None
    case BlankLines =>
      if NewlineRun(s) >= 2 then Some(NewlineRun(s)) else None
  }

  /** `s.split(regex)`, scanning from position `q` of the current piece. */
  function SplitFrom(sep: Separator, s: string, q: nat): (pieces: seq<string>)
    requires q <= |s|
    ensures |pieces| >= 1
    decreases |s|, |s| - q
  {
    if q == |s| then [s]
    else match SepAt(sep, s[q..])
      case Some(n) => [s[..q]] + SplitFrom(sep, s[q..][n..], 0)
      case None => SplitFrom(sep, s, q + 1)
  }

  function SplitAll(sep: Separator, s: string): (pieces: seq<string>)
    ensures |pieces| >= 1
  {
    SplitFrom(sep, s, 0)
  }

  // ---------------------------------------------------------------------
  // Paragraphs

  function StartsWithIgnoringCase(s: string, prefix: string): bool {
    StartsWith(Lower(s), prefix)
  }

  /** `/^<h\d|^<ul>|^<ol>|^<blockquote>|^<hr\s*\/>|^<img /i`. */
  predicate PassesThrough(block: string) {
    || (StartsWithIgnoringCase(block, "<h") && |block| > 2 && IsDigit(block[2]))
    || StartsWithIgnoringCase(block, "<ul>")
    || StartsWithIgnoringCase(block, "<ol>")
    || StartsWithIgnoringCase(block, "<blockquote>")
    || (StartsWithIgnoringCase(block, "<hr") && StartsWith(block[3 + SpaceRun(block[3..])..], "/>"))
    || StartsWithIgnoringCase(block, "<img ")
  }

  /** `block.replace(/\n/g, '<br />')`. */
  function LineBreaks(s: string): (r: string)
    ensures '\n' !in s ==> r == s
  {
    if s == [] then []
    else (if s[0] == '\n' then "<br />" else [s[0]]) + LineBreaks(s[1..])
  }

  function Block(block: string): string {
    if PassesThrough(block) then block else "<p>" + LineBreaks(block) + "</p>"
  }

  function Blocks(blocks: seq<string>): (r: seq<string>)
    ensures |r| == |blocks|
  {
    if blocks == [] then [] else [Block(blocks[0])] + Blocks(blocks[1..])
  }

  /** Every converted block starts with a tag: its own, or `<p>`. */
  lemma BlockStartsWithTag(block: string)
    ensures Block(block) != [] && Block(block)[0] == '<'
  {
    if StartsWithIgnoringCase(block, "<h") {
      LowerTag(block, "<h");
    } else if StartsWithIgnoringCase(block, "<ul>") {
      LowerTag(block, "<ul>");
    } else if StartsWithIgnoringCase(block, "<ol>") {
      LowerTag(block, "<ol>");
    } else if StartsWithIgnoringCase(block, "<blockquote>") {
      LowerTag(block, "<blockquote>");
    } else if StartsWithIgnoringCase(block, "<img ") {
      LowerTag(block, "<img ");
    }
  }

  /** Lower-casing keeps `<`: a text whose lower-cased form starts with a
      tag starts with `<` itself. */
  lemma LowerTag(block: string, tag: string)
    requires StartsWithIgnoringCase(block, tag) && tag != [] && tag[0] == '<'
    ensures block != [] && block[0] == '<'
  {
    assert Lower(block)[0] == tag[0];
  }

  /** Split into blocks at runs of two or more newlines, convert each block,
      join with a single newline. The result starts with the first block,
      converted, so it always starts with a tag. */
  function Paragraphs(s: string): (r: string)
    ensures StartsWith(r, Block(SplitAll(BlankLines, s)[0]))
    ensures r != [] && r[0] == '<'
  {
    var pieces := SplitAll(BlankLines, s);
    var blocks := Blocks(pieces);
    assert blocks[0] == Block(pieces[0]);
    BlockStartsWithTag(pieces[0]);
    Join(blocks, '\n')
  }

  // ---------------------------------------------------------------------
  // The converter

  /** The heading rewrites, deepest first. */
  function Headings(s: string): string {
    ReplaceLines(H1, ReplaceLines(H2, ReplaceLines(H3, s, true), true), true)
  }

  /** Headings, then block quotes, then horizontal rules. */
  function LineRules(s: string): string {
    ReplaceLines(Rule, ReplaceLines(Quote, Headings(s), true), true)
  }

  /** Strong before emphasis, then code, then links. */
  function Inlines(s: string): string {
    ReplaceAll(Link, ReplaceAll(Code, ReplaceAll(Em, ReplaceAll(Strong, s))))
  }

  function Lists(s: string): string {
    ReplaceLists(Numbered, ReplaceLists(Bullet, s, true), true)
  }

  /** `markdownToHtml(md)`: images first, then the line rules, the inline
      rules, the lists and the paragraphs. */
  function MarkdownToHtml(md: string): (r: string)
    ensures r != [] && r[0] == '<'
  {
    Paragraphs(Lists(Inlines(LineRules(ReplaceAll(Image, md)))))
  }

  // ---------------------------------------------------------------------
  // When a stage changes nothing

  predicate NoTerminator(s: string) {
    forall i :: 0 <= i < |s| ==> !IsLineTerminator(s[i])
  }

  /** A global rewrite that matches at no position copies its input. */
  lemma {:induction false} ReplaceAllNoMatch(rule: Inline, s: string)
    requires forall i :: 0 <= i < |s| ==> MatchAt(rule, s[i..]).None?
    ensures ReplaceAll(rule, s) == s
    decreases |s|
  {
    if s != [] {
      assert MatchAt(rule, s[0..]).None?;
      assert s[0..] == s;
      forall i | 0 <= i < |s[1..]| ensures MatchAt(rule, s[1..][i..]).None? {
        assert s[1..][i..] == s[i + 1..];
      }
      ReplaceAllNoMatch(rule, s[1..]);
    }
  }

  /** In particular a rule whose opening character does not occur. */
  lemma ReplaceAllFixed(rule: Inline, s: string)
    requires Opener(rule) !in s
    ensures ReplaceAll(rule, s) == s
  {
    forall i | 0 <= i < |s| ensures MatchAt(rule, s[i..]).None? {
      assert s[i..][0] == s[i];
    }
    ReplaceAllNoMatch(rule, s);
  }

  /** A line rewrite that matches at no line start copies its input. */
  lemma {:induction false} ReplaceLinesNoMatch(rule: LineRule, s: string, atStart: bool)
    requires atStart && s != [] ==> MatchLine(rule, s).None?
    requires forall i :: 0 < i < |s| && IsLineTerminator(s[i - 1]) ==> MatchLine(rule, s[i..]).None?
    ensures ReplaceLines(rule, s, atStart) == s
    decreases |s|
  {
    if s != [] {
      var t := s[1..];
      forall i | 0 < i < |t| && IsLineTerminator(t[i - 1]) ensures MatchLine(rule, t[i..]).None? {
        assert t[i..] == s[i + 1..] && t[i - 1] == s[i];
      }
      if IsLineTerminator(s[0]) && t != [] {
        assert MatchLine(rule, s[1..]).None?;
      }
      ReplaceLinesNoMatch(rule, t, IsLineTerminator(s[0]));
    }
  }

  /** A single line whose first character starts no line rule is copied by
      every line rule. */
  lemma LineRulesFixed(s: string)
    requires NoTerminator(s)
    requires s != [] ==> s[0] != '#' && s[0] != '>' && s[0] != '-'
    ensures forall rule: LineRule :: ReplaceLines(rule, s, true) == s
    ensures LineRules(s) == s
  {
    forall rule: LineRule ensures ReplaceLines(rule, s, true) == s {
      ReplaceLinesNoMatch(rule, s, true);
    }
  }

  /** A list rewrite that finds no list copies its input. */
  lemma {:induction false} ReplaceListsNoMatch(kind: ListKind, s: string, atBegin: bool)
    requires atBegin && s != [] ==> ListAt(kind, s).None?
    requires forall i :: 0 <= i < |s| && s[i] == '\n' ==> ListAt(kind, s[i + 1..]).None?
    ensures ReplaceLists(kind, s, atBegin) == s
    decreases |s|
  {
    if s != [] {
      var t := s[1..];
      forall i | 0 <= i < |t| && t[i] == '\n' ensures ListAt(kind, t[i + 1..]).None? {
        assert t[i + 1..] == s[i + 2..] && t[i] == s[i + 1];
      }
      if s[0] == '\n' {
        assert ListAt(kind, s[0 + 1..]).None?;
      }
      ReplaceListsNoMatch(kind, t, false);
      assert ReplaceLists(kind, s, atBegin) == [s[0]] + ReplaceLists(kind, t, false);
      assert s == [s[0]] + t;
    }
  }

  /** A single line that does not begin with a list marker is copied by both
      list rewrites. */
  lemma ListsFixed(s: string)
    requires '\n' !in s
    requires s != [] ==> s[0] != '-' && !IsDigit(s[0])
    ensures Lists(s) == s
  {
    ReplaceListsNoMatch(Bullet, s, true);
    ReplaceListsNoMatch(Numbered, s, true);
  }

  /** Splitting skips positions that hold no newline. */
  lemma {:induction false} SplitSkip(sep: Separator, s: string, q: nat, k: nat)
    requires q <= k <= |s|
    requires forall i :: q <= i < k ==> s[i] != '\n'
    ensures SplitFrom(sep, s, q) == SplitFrom(sep, s, k)
    decreases k - q
  {
    if q < k {
      assert s[q..][0] == s[q];
      SplitSkip(sep, s, q + 1, k);
    }
  }

  /** Text without a newline is a single block. */
  lemma SplitSingle(sep: Separator, s: string)
    requires '\n' !in s
    ensures SplitAll(sep, s) == [s]
  {
    SplitSkip(sep, s, 0, |s|);
  }

  lemma ParagraphsSingle(s: string)
    requires '\n' !in s
    ensures Paragraphs(s) == Block(s)
  {
    SplitSingle(BlankLines, s);
  }

  // ---------------------------------------------------------------------
  // Text the rules leave alone

  predicate IsLetter(c: char) { 'a' <= c <= 'z' || 'A' <= c <= 'Z' }

  /** Plain words: ASCII letters only. */
  predicate Letters(s: string) {
    forall i :: 0 <= i < |s| ==> IsLetter(s[i])
  }

  /** A character no rule reacts to inside a line. */
  predicate InertChar(c: char) {
    && !IsLineTerminator(c)
    && c != '*' && c != '`' && c != '[' && c != '!'
  }

  /** Text made of such characters only. */
  predicate Inert(s: string) {
    forall i :: 0 <= i < |s| ==> InertChar(s[i])
  }

  lemma LettersInert(w: string)
    requires Letters(w)
    ensures Inert(w) && NoTerminator(w)
  {
    forall c | c in w ensures IsLetter(c) {
      var i :| 0 <= i < |w| && w[i] == c;
    }
  }

  lemma InertNoTerminator(t: string)
    requires Inert(t)
    ensures NoTerminator(t)
  {
    forall i | 0 <= i < |t| ensures !IsLineTerminator(t[i]) {
      assert t[i] in t;
    }
  }

  /** Text a rewrite produced (it starts with a tag and contains no rule's
      opening character) goes unchanged through every stage before the
      paragraph stage. */
  lemma TagFixed(t: string)
    requires Inert(t) && t != [] && t[0] == '<'
    ensures ReplaceAll(Image, t) == t && LineRules(t) == t
    ensures Inlines(t) == t && Lists(t) == t
    ensures Paragraphs(t) == Block(t)
  {
    InertNoTerminator(t);
    LineRulesFixed(t);
    TagInlinesFixed(t);
    ListsFixed(t);
    ParagraphsSingle(t);
  }

  lemma TagInlinesFixed(t: string)
    requires Inert(t)
    ensures ReplaceAll(Image, t) == t && ReplaceAll(Strong, t) == t && ReplaceAll(Em, t) == t
    ensures ReplaceAll(Code, t) == t && ReplaceAll(Link, t) == t && Inlines(t) == t
  {
    ReplaceAllFixed(Image, t);
    ReplaceAllFixed(Strong, t);
    ReplaceAllFixed(Em, t);
    ReplaceAllFixed(Code, t);
    ReplaceAllFixed(Link, t);
  }

  /** `.*?pat` over a plain word stops right after it. */
  lemma {:induction false} FindAfterLetters(w: string, pat: string, rest: string)
    requires Letters(w) && pat != [] && !IsLetter(pat[0])
    ensures FindOnLine(w + pat + rest, pat) == Some(|w|)
    decreases |w|
  {
    var s := w + pat + rest;
    if w == [] {
      assert s[..|pat|] == pat;
    } else {
      assert s[0] == w[0];
      assert !StartsWith(s, pat) by {
        if |pat| <= |s| { assert s[..|pat|][0] == s[0]; }
      }
      assert s[1..] == w[1..] + pat + rest;
      FindAfterLetters(w[1..], pat, rest);
    }
  }

  // ---------------------------------------------------------------------
  // Images and links

  /** `(.*?)\]\((.*?)\)` over plain words captures the two words. */
  /** Brackets in terms of where the two scans stop. */
  lemma BracketsFound(rest: string, a: nat, b: nat)
    requires FindOnLine(rest, "](") == Some(a)
    requires FindOnLine(rest[a + 2..], ")") == Some(b)
    ensures Brackets(rest) == Some((rest[..a], rest[a + 2..][..b], a + b + 3))
  {
  }

  lemma BracketsWords(text: string, target: string)
    requires Letters(text) && Letters(target)
    ensures Brackets(text + "](" + target + ")") == Some((text, target, |text| + |target| + 3))
  {
    var tail := target + ")";
    var rest := text + "](" + tail;
    FindAfterLetters(text, "](", tail);
    var after := rest[|text| + 2..];
    assert after == tail + "" by { assert after == tail; }
    FindAfterLetters(target, ")", "");
    BracketsFound(rest, |text|, |target|);
    assert rest[..|text|] == text;
    assert after[..|target|] == target;
    assert rest == text + "](" + target + ")";
  }

  lemma BracketedWords(opener: string, text: string, target: string)
    requires opener != [] && Letters(text) && Letters(target)
    ensures Bracketed(opener + text + "](" + target + ")", opener) ==
            Some((text, target, |opener + text + "](" + target + ")"|))
  {
    var s := opener + text + "](" + target + ")";
    assert s[..|opener|] == opener;
    assert s[|opener|..] == text + "](" + target + ")";
    BracketsWords(text, target);
  }

  /** Image syntax becomes an `<img>` tag. */
  lemma ImageRewritten(alt: string, src: string)
    requires Letters(alt) && Letters(src)
    ensures ReplaceAll(Image, "![" + alt + "](" + src + ")") == ImageTag(alt, src)
  {
    var s := "![" + alt + "](" + src + ")";
    BracketedWords("![", alt, src);
    assert MatchAt(Image, s) == Some((ImageTag(alt, src), |s|));
    assert s[|s|..] == [];
  }

  /** Link syntax becomes an anchor opening in a new tab. */
  lemma LinkRewritten(text: string, href: string)
    requires Letters(text) && Letters(href)
    ensures ReplaceAll(Link, "[" + text + "](" + href + ")") == Anchor(text, href)
  {
    var s := "[" + text + "](" + href + ")";
    BracketedWords("[", text, href);
    assert MatchAt(Link, s) == Some((Anchor(text, href), |s|));
    assert s[|s|..] == [];
  }

  /** Had the link rule run first, it would have turned the bracketed part
      of an image into an anchor, leaving the `!` in front. */
  lemma LinkRuleWouldCaptureImage(alt: string, src: string)
    requires Letters(alt) && Letters(src)
    ensures ReplaceAll(Link, "![" + alt + "](" + src + ")") == "!" + Anchor(alt, src)
  {
    var s := "![" + alt + "](" + src + ")";
    assert s[1..] == "[" + alt + "](" + src + ")";
    LinkRewritten(alt, src);
  }

  /** The `<img>` tag is left alone by the paragraph stage. */
  lemma ImageTagPassesThrough(alt: string, src: string)
    ensures PassesThrough(ImageTag(alt, src))
    ensures Block(ImageTag(alt, src)) == ImageTag(alt, src)
  {
    var t := ImageTag(alt, src);
    assert t[..5] == "<img ";
    assert Lower(t)[..5] == "<img ";
  }

  /** An image is rewritten to an `<img>` tag, never to an anchor, and the
      tag passes through the paragraph stage unwrapped. */
  lemma ImageNeverAnchor(alt: string, src: string)
    requires Letters(alt) && Letters(src)
    ensures MarkdownToHtml("![" + alt + "](" + src + ")") == ImageTag(alt, src)
  {
    var t := ImageTag(alt, src);
    ImageRewritten(alt, src);
    ImageTagInert(alt, src);
    TagFixed(t);
    ImageTagPassesThrough(alt, src);
  }

  /** The `<img>` tag around plain words holds no rule's opening character. */
  lemma ImagePiecesInert()
    ensures Inert("<img src=\"") && Inert("\" alt=\"") && Inert("\" />")
  {
    assert Inert("<img ") && Inert("src=\"");
    assert "<img " + "src=\"" == "<img src=\"";
  }

  lemma ImageTagInert(alt: string, src: string)
    requires Letters(alt) && Letters(src)
    ensures Inert(ImageTag(alt, src))
  {
    LettersInert(alt);
    LettersInert(src);
    ImagePiecesInert();
    InertConcat("<img src=\"", src);
    InertConcat("<img src=\"" + src, "\" alt=\"");
    InertConcat("<img src=\"" + src + "\" alt=\"", alt);
    InertConcat("<img src=\"" + src + "\" alt=\"" + alt, "\" />");
  }

  /** A string that differs from the prefix at one of its positions does
      not start with it. */
  lemma CharDiffers(s: string, prefix: string, k: nat)
    requires k < |prefix| && (|s| <= k || s[k] != prefix[k])
    ensures !StartsWith(s, prefix)
  {
    if |prefix| <= |s| {
      assert s[..|prefix|][k] == s[k];
    }
  }

  /** A block whose second character is `a` matches none of the
      pass-through tags. */
  lemma SecondCharA(b: string)
    requires |b| >= 2 && b[1] == 'a'
    ensures !PassesThrough(b)
  {
    var l := Lower(b);
    assert l[1] == 'a';
    CharDiffers(l, "<h", 1);
    CharDiffers(l, "<ul>", 1);
    CharDiffers(l, "<ol>", 1);
    CharDiffers(l, "<blockquote>", 1);
    CharDiffers(l, "<hr", 1);
    CharDiffers(l, "<img ", 1);
  }

  /** The anchor is wrapped in a paragraph. */
  lemma AnchorWrapped(text: string, href: string)
    requires Letters(text) && Letters(href)
    ensures !PassesThrough(Anchor(text, href))
    ensures Block(Anchor(text, href)) == "<p>" + Anchor(text, href) + "</p>"
  {
    SecondCharA(Anchor(text, href));
    AnchorInert(text, href);
  }

  /** Link syntax over plain words contains no other rule's opening
      character and no line break, so only the link rule changes it. */
  lemma LinkSourceInert(text: string, href: string)
    requires Letters(text) && Letters(href)
    ensures Inlines(LineRules(ReplaceAll(Image, "[" + text + "](" + href + ")"))) == Anchor(text, href)
  {
    var s := "[" + text + "](" + href + ")";
    LettersInert(text);
    LettersInert(href);
    assert '!' !in s && '*' !in s && '`' !in s;
    assert NoTerminator(s) by {
      forall i | 0 <= i < |s| ensures !IsLineTerminator(s[i]) { assert s[i] in s; }
    }
    ReplaceAllFixed(Image, s);
    LineRulesFixed(s);
    ReplaceAllFixed(Strong, s);
    ReplaceAllFixed(Em, s);
    ReplaceAllFixed(Code, s);
    LinkRewritten(text, href);
  }

  /** The anchor around plain words holds no rule's opening character. */
  lemma AnchorInert(text: string, href: string)
    requires Letters(text) && Letters(href)
    ensures Inert(Anchor(text, href))
  {
    LettersInert(text);
    LettersInert(href);
    AnchorPiecesInert();
    var mid := "\" target=\"_blank\" rel=\"noopener noreferrer\">";
    InertConcat("<a href=\"", href);
    InertConcat("<a href=\"" + href, mid);
    InertConcat("<a href=\"" + href + mid, text);
    InertConcat("<a href=\"" + href + mid + text, "</a>");
  }

  lemma AnchorPiecesInert()
    ensures Inert("<a href=\"") && Inert("</a>")
    ensures Inert("\" target=\"_blank\" rel=\"noopener noreferrer\">")
  {
    TargetInert();
    RelInert();
    InertConcat("\" target=\"_blank\" ", "rel=\"noopener noreferrer\">");
    assert "\" target=\"_blank\" " + "rel=\"noopener noreferrer\">" ==
           "\" target=\"_blank\" rel=\"noopener noreferrer\">";
  }

  // Membership in a string literal costs the solver more than linear time
  // in its length, so the anchor's attributes are checked in short pieces.

  lemma TargetInert()
    ensures Inert("\" target=\"_blank\" ")
  {
    assert Inert("\" target=\"");
    assert Inert("_blank\" ");
    assert "\" target=\"" + "_blank\" " == "\" target=\"_blank\" ";
  }

  lemma RelInert()
    ensures Inert("rel=\"noopener noreferrer\">")
  {
    assert Inert("rel=\"noo");
    assert Inert("pener no");
    assert Inert("referrer\">");
    assert "rel=\"noo" + "pener no" + "referrer\">" == "rel=\"noopener noreferrer\">";
  }

  lemma InertConcat(a: string, b: string)
    requires Inert(a) && Inert(b)
    ensures Inert(a + b)
  {
  }

  /** A link becomes an anchor inside a paragraph. */
  lemma LinkInParagraph(text: string, href: string)
    requires Letters(text) && Letters(href)
    ensures MarkdownToHtml("[" + text + "](" + href + ")") == "<p>" + Anchor(text, href) + "</p>"
  {
    var t := Anchor(text, href);
    LinkSourceInert(text, href);
    AnchorInert(text, href);
    TagFixed(t);
    AnchorWrapped(text, href);
  }


  // ---------------------------------------------------------------------
  // Headings, block quotes and rules

  /** `marker\s+(.*)$` over a marker, one space and a plain word. */
  lemma PrefixedWord(s: string, marker: string, open: string, close: string, t: string)
    requires marker != [] && Letters(t) && s == marker + " " + t
    ensures Prefixed(s, marker, open, close) == Some((open + t + close, |s|))
  {
    assert s[..|marker|] == marker;
    assert s[|marker|..] == " " + t;
    assert s[|marker|] == ' ';
    assert SpaceRun(" " + t) == 1 by {
      assert (" " + t)[1..] == t;
      if t != [] { assert !IsSpace(t[0]); }
    }
    var w := |marker| + 1;
    assert s[w..] == t;
    LettersInert(t);
    assert LineLength(t) == |t|;
    assert s[w..w + |t|] == t;
    assert w + |t| == |s|;
  }

  /** A line rule that matches the whole text replaces it. */
  lemma ReplaceLinesWhole(rule: LineRule, s: string, out: string)
    requires MatchLine(rule, s) == Some((out, |s|))
    ensures ReplaceLines(rule, s, true) == out
  {
    assert s[|s|..] == [];
  }

  /** An element around a plain word, produced by a line rule, is left alone
      by every line rule. */
  lemma ElementFixed(open: string, t: string, close: string)
    requires Letters(t) && Inert(open) && Inert(close) && open != [] && open[0] == '<'
    ensures forall rule: LineRule :: ReplaceLines(rule, open + t + close, true) == open + t + close
  {
    LettersInert(t);
    InertConcat(open, t);
    InertConcat(open + t, close);
    InertNoTerminator(open + t + close);
    LineRulesFixed(open + t + close);
  }

  /** A line with no line terminator on which a rule does not match at the
      start is copied by that rule. */
  lemma OneLineNoMatch(rule: LineRule, s: string)
    requires NoTerminator(s) && (s != [] ==> MatchLine(rule, s).None?)
    ensures ReplaceLines(rule, s, true) == s
  {
    ReplaceLinesNoMatch(rule, s, true);
  }

  lemma HeadingTagsInert()
    ensures Inert("<h1>") && Inert("</h1>") && Inert("<h2>") && Inert("</h2>")
    ensures Inert("<h3>") && Inert("</h3>")
  {
  }

  /** `### t` becomes a level-3 heading. */
  lemma H3Rewritten(t: string)
    requires Letters(t)
    ensures LineRules("### " + t) == "<h3>" + t + "</h3>"
  {
    var s := "### " + t;
    PrefixedWord(s, "###", "<h3>", "</h3>", t);
    ReplaceLinesWhole(H3, s, "<h3>" + t + "</h3>");
    HeadingTagsInert();
    ElementFixed("<h3>", t, "</h3>");
  }

  /** `## t` is not a level-3 heading and becomes a level-2 one. */
  lemma H2Rewritten(t: string)
    requires Letters(t)
    ensures LineRules("## " + t) == "<h2>" + t + "</h2>"
  {
    var s := "## " + t;
    LettersInert(t);
    InertConcat("## ", t);
    InertNoTerminator(s);
    assert s[..3][2] == ' ';
    OneLineNoMatch(H3, s);
    PrefixedWord(s, "##", "<h2>", "</h2>", t);
    ReplaceLinesWhole(H2, s, "<h2>" + t + "</h2>");
    HeadingTagsInert();
    ElementFixed("<h2>", t, "</h2>");
  }

  /** `# t` is neither a level-3 nor a level-2 heading and becomes a
      level-1 one. */
  lemma H1Rewritten(t: string)
    requires Letters(t)
    ensures LineRules("# " + t) == "<h1>" + t + "</h1>"
  {
    var s := "# " + t;
    LettersInert(t);
    InertConcat("# ", t);
    InertNoTerminator(s);
    assert s[..2][1] == ' ';
    OneLineNoMatch(H3, s);
    OneLineNoMatch(H2, s);
    PrefixedWord(s, "#", "<h1>", "</h1>", t);
    ReplaceLinesWhole(H1, s, "<h1>" + t + "</h1>");
    HeadingTagsInert();
    ElementFixed("<h1>", t, "</h1>");
  }

  /** A line that starts with neither `#` nor a line terminator is left
      alone by the heading rules. */
  lemma NotHeading(s: string, marker: string, t: string)
    requires Letters(t) && Inert(marker) && marker != [] && marker[0] != '#'
    requires s == marker + " " + t
    ensures Headings(s) == s
  {
    LettersInert(t);
    InertConcat(marker + " ", t);
    InertNoTerminator(s);
    OneLineNoMatch(H3, s);
    OneLineNoMatch(H2, s);
    OneLineNoMatch(H1, s);
  }

  lemma QuoteTagsInert()
    ensures Inert("<blockquote>") && Inert("</blockquote>")
  {
    assert Inert("<block") && Inert("quote>") && Inert("</block");
    assert "<block" + "quote>" == "<blockquote>";
    assert "</block" + "quote>" == "</blockquote>";
  }

  /** `> t` becomes a block quote. */
  lemma QuoteRewritten(t: string)
    requires Letters(t)
    ensures LineRules("> " + t) == "<blockquote>" + t + "</blockquote>"
  {
    var s := "> " + t;
    NotHeading(s, ">", t);
    PrefixedWord(s, ">", "<blockquote>", "</blockquote>", t);
    ReplaceLinesWhole(Quote, s, "<blockquote>" + t + "</blockquote>");
    QuoteTagsInert();
    ElementFixed("<blockquote>", t, "</blockquote>");
  }

  /** A line that is exactly `---` becomes a horizontal rule; a longer run
      of dashes is not one. */
  lemma RuleRewritten()
    ensures LineRules("---") == "<hr />"
  {
    assert NoTerminator("---");
    OneLineNoMatch(H3, "---");
    OneLineNoMatch(H2, "---");
    OneLineNoMatch(H1, "---");
    OneLineNoMatch(Quote, "---");
    ReplaceLinesWhole(Rule, "---", "<hr />");
    assert NoTerminator("<hr />");
    LineRulesFixed("<hr />");
  }

  lemma LongerDashesNotRule()
    ensures LineRules("----") == "----"
  {
    assert NoTerminator("----");
    OneLineNoMatch(H3, "----");
    OneLineNoMatch(H2, "----");
    OneLineNoMatch(H1, "----");
    OneLineNoMatch(Quote, "----");
    assert "----"[..3] == "---";
    OneLineNoMatch(Rule, "----");
  }

  // ---------------------------------------------------------------------
  // Emphasis and code

  /** A global rewrite whose match covers the whole text replaces it. */
  lemma ReplaceAllWhole(rule: Inline, s: string, out: string)
    requires MatchAt(rule, s) == Some((out, |s|))
    ensures ReplaceAll(rule, s) == out
  {
    assert s[|s|..] == [];
  }

  /** A position that does not hold the rule's opening character is
      copied. */
  lemma ReplaceAllCopies(rule: Inline, s: string)
    requires s != [] && s[0] != Opener(rule)
    ensures ReplaceAll(rule, s) == [s[0]] + ReplaceAll(rule, s[1..])
  {
    assert MatchAt(rule, s).None?;
  }

  /** Plain letters are copied by every inline rule. */
  lemma {:induction false} ReplaceAllLetters(rule: Inline, w: string, rest: string)
    requires Letters(w)
    ensures ReplaceAll(rule, w + rest) == w + ReplaceAll(rule, rest)
    decreases |w|
  {
    if w == [] {
      assert w + rest == rest;
    } else {
      var s := w + rest;
      assert s[0] == w[0] && IsLetter(w[0]);
      assert Opener(rule) in "!*`[";
      ReplaceAllCopies(rule, s);
      assert s[1..] == w[1..] + rest;
      ReplaceAllLetters(rule, w[1..], rest);
      ConsSplit(w, ReplaceAll(rule, rest));
    }
  }

  lemma ConsSplit(w: string, r: string)
    requires w != []
    ensures [w[0]] + (w[1..] + r) == w + r
  {
    assert [w[0]] + w[1..] == w;
  }

  /** `delim(.*?)delim` around a plain word. */
  lemma DelimitedWord(s: string, delim: string, open: string, close: string, t: string)
    requires delim != [] && !IsLetter(delim[0]) && Letters(t) && s == delim + t + delim
    ensures Delimited(s, delim, open, close) == Some((open + t + close, |s|))
  {
    assert s[..|delim|] == delim;
    assert s[|delim|..] == t + delim + "";
    FindAfterLetters(t, delim, "");
    assert s[|delim|..|delim| + |t|] == t;
  }

  /** An element wrapped around a plain word holds no rule's opening
      character when its tags hold none. */
  lemma WrappedInert(open: string, t: string, close: string)
    requires Inert(open) && Inert(close) && Letters(t)
    ensures Inert(open + t + close)
  {
    LettersInert(t);
    InertConcat(open, t);
    InertConcat(open + t, close);
  }

  lemma StrongTagsInert()
    ensures Inert("<strong>") && Inert("</strong>")
  {
  }

  lemma EmTagsInert()
    ensures Inert("<em>") && Inert("</em>")
  {
  }

  /** `**t**` becomes `<strong>`, and the later inline rules keep it. */
  lemma StrongRewritten(t: string)
    requires Letters(t)
    ensures ReplaceAll(Strong, "**" + t + "**") == "<strong>" + t + "</strong>"
    ensures Inlines("**" + t + "**") == "<strong>" + t + "</strong>"
  {
    var s := "**" + t + "**";
    var out := "<strong>" + t + "</strong>";
    DelimitedWord(s, "**", "<strong>", "</strong>", t);
    ReplaceAllWhole(Strong, s, out);
    StrongTagsInert();
    WrappedInert("<strong>", t, "</strong>");
    TagInlinesFixed(out);
  }

  /** Had the single-star rule run first, `**t**` would have become two
      empty emphasis elements around the word. */
  lemma EmWouldSplitStrong(t: string)
    requires Letters(t)
    ensures ReplaceAll(Em, "**" + t + "**") == "<em></em>" + t + "<em></em>"
  {
    var s := "**" + t + "**";
    EmptyEmphasisFirst(s);
    assert s[2..] == t + "**";
    ReplaceAllLetters(Em, t, "**");
    EmptyEmphasis();
  }

  /** Two stars opening a text are an empty emphasis. */
  lemma EmptyEmphasisFirst(s: string)
    requires |s| >= 2 && s[0] == '*' && s[1] == '*'
    ensures MatchAt(Em, s) == Some(("<em></em>", 2))
  {
    assert s[..1] == "*" && s[1..][..1] == "*";
    assert FindOnLine(s[1..], "*") == Some(0);
    assert s[1..1] == [];
    assert "<em>" + s[1..1] + "</em>" == "<em></em>";
  }

  /** `**` alone becomes one empty emphasis. */
  lemma EmptyEmphasis()
    ensures ReplaceAll(Em, "**") == "<em></em>"
  {
    EmptyEmphasisFirst("**");
    ReplaceAllWhole(Em, "**", "<em></em>");
  }

  /** A word between single stars holds no match of the strong rule. */
  lemma SingleStarsNotStrong(t: string)
    requires Letters(t) && t != []
    ensures ReplaceAll(Strong, "*" + t + "*") == "*" + t + "*"
  {
    var s := "*" + t + "*";
    forall i | 0 <= i < |s| ensures MatchAt(Strong, s[i..]).None? {
      if i == 0 {
        assert s[..2][1] == t[0];
      } else if i <= |t| {
        assert s[i..][0] == t[i - 1];
      } else {
        assert |s[i..]| == 1;
      }
    }
    ReplaceAllNoMatch(Strong, s);
  }

  /** A word between single stars: the strong rule leaves it, and the
      emphasis rule wraps it. */
  lemma EmRewritten(t: string)
    requires Letters(t) && t != []
    ensures Inlines("*" + t + "*") == "<em>" + t + "</em>"
  {
    var s := "*" + t + "*";
    SingleStarsNotStrong(t);
    var out := "<em>" + t + "</em>";
    DelimitedWord(s, "*", "<em>", "</em>", t);
    ReplaceAllWhole(Em, s, out);
    EmTagsInert();
    WrappedInert("<em>", t, "</em>");
    TagInlinesFixed(out);
  }

  /** `` `t` `` becomes `<code>`; two adjacent backticks enclose nothing and
      are kept. */
  lemma CodeRewritten(t: string)
    requires Letters(t) && t != []
    ensures ReplaceAll(Code, "`" + t + "`") == "<code>" + t + "</code>"
    ensures ReplaceAll(Code, "``") == "``"
  {
    var s := "`" + t + "`";
    assert s[1..] == t + "`";
    var r := NextBacktick(t + "`");
    assert (t + "`")[|t|] == '`';
    assert r.Some?;
    assert r.value == |t|;
    assert s[1..1 + |t|] == t;
    ReplaceAllWhole(Code, s, "<code>" + t + "</code>");
    assert "``"[1..] == "`";
    assert CodeAt("``").None?;
    assert ReplaceAll(Code, "`") == "`";
  }

  // ---------------------------------------------------------------------
  // Lists

  /** An item marker of the kind: `-`, or a digit followed by `.`. */
  predicate ListMarker(kind: ListKind, m: string) {
    match kind
    case Bullet => m == "-"
    case Numbered => |m| == 2 && IsDigit(m[0]) && m[1] == '.'
  }

  /** A marker followed by white space is recognised with its length. */
  lemma MarkerFound(kind: ListKind, m: string, rest: string)
    requires ListMarker(kind, m) && rest != [] && rest[0] == ' '
    ensures MarkerLength(kind, m + rest) == Some(|m|)
  {
    if kind == Numbered {
      var s := m + rest;
      assert s[0] == m[0] && s[1] == '.';
      assert s[1..][0] == '.';
      assert DigitRun(s[1..]) == 0;
    }
  }

  /** The item head `marker\s+` before a plain word. */
  lemma ItemHeadWord(kind: ListKind, m: string, a: string, rest: string)
    requires ListMarker(kind, m) && Letters(a) && a != []
    ensures ItemHead(kind, m + " " + a + rest) == Some(|m| + 1)
  {
    var s := m + " " + a + rest;
    assert s == m + (" " + a + rest);
    MarkerFound(kind, m, " " + a + rest);
    assert s[|m|..] == " " + (a + rest);
    assert (a + rest)[0] == a[0];
    assert (" " + (a + rest))[1..] == a + rest;
    assert !IsSpace((a + rest)[0]);
    assert SpaceRun(a + rest) == 0;
    assert SpaceRun(" " + (a + rest)) == 1;
  }

  /** `.*` over a plain word stops at the line break after it. */
  lemma LineOfWord(a: string, rest: string)
    requires Letters(a) && rest != [] && rest[0] == '\n'
    ensures LineLength(a + rest) == |a|
  {
    var s := a + rest;
    var n := LineLength(s);
    LineLengthFirst(s);
    assert s[|a|] == '\n';
  }

  /** ListAt in terms of where its three scans stop. */
  lemma ListAtFound(kind: ListKind, s: string, h: nat, l: nat, t: nat, mk: nat, end: nat)
    requires ItemHead(kind, s) == Some(h) && LineLength(s[h..]) == l
    requires ListTail(kind, s[h..][l..]) == t
    requires MarkerLength(kind, s) == Some(mk) && end == h + l + t
    ensures ListAt(kind, s) == Some((mk, end))
  {
  }

  /** The first separator, at `q`, ends the first piece. */
  lemma SplitFound(sep: Separator, x: string, q: nat, n: nat)
    requires q <= |x| && SepAt(sep, x[q..]) == Some(n)
    requires forall i :: 0 <= i < q ==> x[i] != '\n'
    ensures SplitAll(sep, x) == [x[..q]] + SplitAll(sep, x[q..][n..])
  {
    SplitSkip(sep, x, 0, q);
  }

  /** SplitFound, with the first piece and the rest named. */
  lemma SplitPieces(sep: Separator, x: string, q: nat, n: nat, first: string, rest: string)
    requires q <= |x| && SepAt(sep, x[q..]) == Some(n)
    requires forall i :: 0 <= i < q ==> x[i] != '\n'
    requires x[..q] == first && x[q..][n..] == rest
    ensures SplitAll(sep, x) == [first] + SplitAll(sep, rest)
  {
    SplitFound(sep, x, q, n);
  }

  /** A plain word is an item text as it is: no marker strips it and
      trimming keeps it. */
  lemma ItemTextWord(kind: ListKind, w: string, rest: seq<string>)
    requires Letters(w) && w != []
    ensures ItemTexts(kind, [w] + rest) == [w] + ItemTexts(kind, rest)
  {
    assert !IsSpace(w[0]) && !IsSpace(w[|w| - 1]);
    TrimNoSpace(w);
    assert ItemHead(kind, w).None?;
    assert ([w] + rest)[0] == w && ([w] + rest)[1..] == rest;
  }

  /** The last item, `\nmarker\s+word`, is the whole tail. */
  lemma LastItemTail(kind: ListKind, m: string, b: string)
    requires ListMarker(kind, m) && Letters(b) && b != []
    ensures ListTail(kind, "\n" + m + " " + b) == |m| + 2 + |b|
  {
    var s := "\n" + m + " " + b;
    assert s[1..] == m + " " + b + "";
    ItemHeadWord(kind, m, b, "");
    LettersInert(b);
    assert s[|m| + 2..] == b;
    assert s[|m| + 2 + |b|..] == [];
  }

  /** The first item of a list: its head, its line and what follows. */
  lemma FirstItem(kind: ListKind, m: string, a: string, tail: string, s: string)
    requires ListMarker(kind, m) && Letters(a) && a != [] && tail != [] && tail[0] == '\n'
    requires s == m + " " + a + tail
    ensures ItemHead(kind, s) == Some(|m| + 1) && MarkerLength(kind, s) == Some(|m|)
    ensures LineLength(s[|m| + 1..]) == |a| && s[|m| + 1..][|a|..] == tail
  {
    ItemHeadWord(kind, m, a, tail);
    assert s == m + (" " + a + tail);
    MarkerFound(kind, m, " " + a + tail);
    assert s[|m| + 1..] == a + tail;
    LineOfWord(a, tail);
  }

  /** Two items of the kind, each a marker and a plain word. */
  predicate TwoItems(kind: ListKind, m1: string, a: string, m2: string, b: string) {
    ListMarker(kind, m1) && ListMarker(kind, m2) && Letters(a) && a != [] && Letters(b) && b != []
  }

  /** Two consecutive items form one list spanning the whole text. */
  lemma TwoItemsAt(kind: ListKind, m1: string, a: string, m2: string, b: string, s: string)
    requires TwoItems(kind, m1, a, m2, b)
    requires s == m1 + " " + a + ("\n" + m2 + " " + b)
    ensures ListAt(kind, s) == Some((|m1|, |s|))
  {
    var tail := "\n" + m2 + " " + b;
    FirstItem(kind, m1, a, tail, s);
    LastItemTail(kind, m2, b);
    assert |s| == |m1| + 1 + |a| + (|m2| + 2 + |b|);
    ListAtFound(kind, s, |m1| + 1, |a|, |m2| + 2 + |b|, |m1|, |s|);
  }

  /** Further items, each a marker of the kind and a plain word. */
  predicate Items(kind: ListKind, ms: seq<string>, ws: seq<string>) {
    && |ms| == |ws|
    && (forall i :: 0 <= i < |ms| ==> ListMarker(kind, ms[i]))
    && (forall i :: 0 <= i < |ws| ==> Letters(ws[i]) && ws[i] != [])
  }

  /** The first further item and the ones after it. */
  lemma ItemsRest(kind: ListKind, ms: seq<string>, ws: seq<string>)
    requires Items(kind, ms, ws) && ms != []
    ensures ListMarker(kind, ms[0]) && Letters(ws[0]) && ws[0] != []
    ensures Items(kind, ms[1..], ws[1..])
  {
    forall i | 0 <= i < |ms| - 1 ensures ms[1..][i] == ms[i + 1] && ws[1..][i] == ws[i + 1] { }
  }

  /** The source text of the further items: `\nmarker word` for each. */
  function Tail(ms: seq<string>, ws: seq<string>): string
    requires |ms| == |ws|
  {
    if ms == [] then "" else "\n" + ms[0] + " " + ws[0] + Tail(ms[1..], ws[1..])
  }

  function ListOpen(kind: ListKind): string { if kind == Bullet then "<ul>" else "<ol>" }
  function ListClose(kind: ListKind): string { if kind == Bullet then "</ul>" else "</ol>" }

  /** A tail is empty or starts a new line, and it ends in a letter. */
  lemma {:induction false} TailShape(ms: seq<string>, ws: seq<string>, kind: ListKind)
    requires Items(kind, ms, ws)
    ensures Tail(ms, ws) == [] || Tail(ms, ws)[0] == '\n'
    ensures Tail(ms, ws) == [] || IsLetter(Tail(ms, ws)[|Tail(ms, ws)| - 1])
    decreases |ms|
  {
    if ms != [] {
      var rest := Tail(ms[1..], ws[1..]);
      ItemsRest(kind, ms, ws);
      TailShape(ms[1..], ws[1..], kind);
      var t := "\n" + ms[0] + " " + ws[0];
      assert Tail(ms, ws) == t + rest;
      if rest == [] {
        assert Tail(ms, ws)[|Tail(ms, ws)| - 1] == ws[0][|ws[0]| - 1];
      } else {
        assert Tail(ms, ws)[|Tail(ms, ws)| - 1] == rest[|rest| - 1];
      }
    }
  }

  /** The separator in front of a further item. */
  lemma ItemSepWord(kind: ListKind, m: string, w: string, rest: string)
    requires ListMarker(kind, m) && Letters(w) && w != []
    ensures SepAt(ItemSep(kind), "\n" + m + " " + w + rest) == Some(|m| + 2)
  {
    var y := "\n" + m + " " + w + rest;
    assert y[1..] == m + " " + w + rest;
    ItemHeadWord(kind, m, w, rest);
  }

  /** The first piece of the captured items ends at the next item head. */
  lemma SplitStep(kind: ListKind, w: string, m: string, w2: string, rest: string)
    requires Letters(w) && w != [] && ListMarker(kind, m) && Letters(w2) && w2 != []
    ensures SplitAll(ItemSep(kind), w + ("\n" + m + " " + w2 + rest)) ==
            [w] + SplitAll(ItemSep(kind), w2 + rest)
  {
    var y := "\n" + m + " " + w2 + rest;
    ItemSepWord(kind, m, w2, rest);
    assert y[|m| + 2..] == w2 + rest;
    SplitAfterWord(ItemSep(kind), w, y, |m| + 2, w2 + rest);
  }

  /** A word followed by a separator is the first piece of the split. */
  lemma SplitAfterWord(sep: Separator, w: string, y: string, n: nat, rest: string)
    requires Letters(w) && SepAt(sep, y) == Some(n) && n <= |y| && y[n..] == rest
    ensures SplitAll(sep, w + y) == [w] + SplitAll(sep, rest)
  {
    var x := w + y;
    WordThenBreak(w, y);
    SplitPieces(sep, x, |w|, n, w, rest);
  }

  /** A plain word in front of more text: no line break inside it. */
  lemma WordThenBreak(w: string, y: string)
    requires Letters(w)
    ensures forall i :: 0 <= i < |w| ==> (w + y)[i] != '\n'
    ensures (w + y)[..|w|] == w && (w + y)[|w|..] == y
  {
    LettersInert(w);
    forall i | 0 <= i < |w| ensures (w + y)[i] != '\n' {
      assert (w + y)[i] == w[i];
    }
  }

  /** The captured items split at `\nmarker\s+` into their words, however
      many there are. */
  lemma {:induction false} SplitItems(kind: ListKind, w: string, ms: seq<string>, ws: seq<string>)
    requires Letters(w) && w != [] && Items(kind, ms, ws)
    ensures SplitAll(ItemSep(kind), w + Tail(ms, ws)) == [w] + ws
    decreases |ms|
  {
    if ms == [] {
      LettersInert(w);
      assert w + Tail(ms, ws) == w;
      SplitSingle(ItemSep(kind), w);
    } else {
      ItemsRest(kind, ms, ws);
      var rest := Tail(ms[1..], ws[1..]);
      assert Tail(ms, ws) == "\n" + ms[0] + " " + ws[0] + rest;
      SplitStep(kind, w, ms[0], ws[0], rest);
      SplitItems(kind, ws[0], ms[1..], ws[1..]);
      assert [ws[0]] + ws[1..] == ws;
    }
  }

  /** Plain words are item texts as they are. */
  lemma {:induction false} ItemTextsWords(kind: ListKind, ws: seq<string>)
    requires forall i :: 0 <= i < |ws| ==> Letters(ws[i]) && ws[i] != []
    ensures ItemTexts(kind, ws) == ws
    decreases |ws|
  {
    if ws != [] {
      ItemTextsWords(kind, ws[1..]);
      ItemTextWord(kind, ws[0], ws[1..]);
      assert [ws[0]] + ws[1..] == ws;
    }
  }

  /** The captured items without the space after the first marker. */
  lemma TrimItems(kind: ListKind, w: string, ms: seq<string>, ws: seq<string>)
    requires Letters(w) && w != [] && Items(kind, ms, ws)
    ensures Trim(" " + (w + Tail(ms, ws))) == w + Tail(ms, ws)
  {
    var t := Tail(ms, ws);
    var inner := w + t;
    TailShape(ms, ws, kind);
    assert inner[0] == w[0];
    if t == [] {
      assert inner == w;
    } else {
      assert inner[|inner| - 1] == t[|t| - 1];
    }
    TrimLeadingSpace(inner);
  }

  /** Plain words, the first one in front. */
  lemma WordsCons(w: string, ws: seq<string>)
    requires Letters(w) && w != [] && forall i :: 0 <= i < |ws| ==> Letters(ws[i]) && ws[i] != []
    ensures forall i :: 0 <= i < |[w] + ws| ==> Letters(([w] + ws)[i]) && ([w] + ws)[i] != []
  {
    forall i | 0 <= i < |[w] + ws| ensures ([w] + ws)[i] == if i == 0 then w else ws[i - 1] { }
  }

  /** The element for the captured text of any number of items: one `<li>`
      per item, in order. */
  lemma ItemsHtml(kind: ListKind, w: string, ms: seq<string>, ws: seq<string>)
    requires Letters(w) && w != [] && Items(kind, ms, ws)
    ensures ListHtml(kind, " " + (w + Tail(ms, ws))) == ListOpen(kind) + Lis([w] + ws) + ListClose(kind)
  {
    TrimItems(kind, w, ms, ws);
    SplitItems(kind, w, ms, ws);
    WordsCons(w, ws);
    ItemTextsWords(kind, [w] + ws);
  }

  /** The element for the captured text of two items. */
  lemma TwoItemHtml(kind: ListKind, a: string, m2: string, b: string)
    requires ListMarker(kind, m2) && Letters(a) && a != [] && Letters(b) && b != []
    ensures ListHtml(kind, " " + (a + ("\n" + m2 + " " + b))) ==
            (if kind == Bullet then "<ul>" else "<ol>") + (Li(a) + Li(b)) +
            (if kind == Bullet then "</ul>" else "</ol>")
  {
    var tail := "\n" + m2 + " " + b;
    assert Tail([m2], [b]) == tail + Tail([], []);
    var x := " " + (a + Tail([m2], [b]));
    assert x == " " + (a + tail);
    assert Items(kind, [m2], [b]);
    ItemsHtml(kind, a, [m2], [b]);
    assert ListHtml(kind, x) == ListOpen(kind) + Lis([a] + [b]) + ListClose(kind);
    assert [a] + [b] == [a, b];
    LisTwo(a, b);
    assert ListHtml(kind, x) == ListOpen(kind) + (Li(a) + Li(b)) + ListClose(kind);
  }

  /** A list that spans the whole text is replaced by its element. */
  lemma ReplaceListsWhole(kind: ListKind, s: string, m: nat)
    requires ListAt(kind, s) == Some((m, |s|))
    ensures ReplaceLists(kind, s, true) == ListHtml(kind, s[m..])
  {
    assert s[m..|s|] == s[m..];
    assert s[|s|..] == [];
  }

  lemma LisTwo(a: string, b: string)
    ensures Lis([a, b]) == Li(a) + Li(b)
  {
    assert [a, b][1..] == [b];
    assert [b][1..] == [];
    assert Lis([b]) == Li(b) + "" == Li(b);
  }

  lemma DropPrefix(m: string, rest: string, s: string)
    requires s == m + rest
    ensures s[|m|..] == rest
  {
  }

  /** The list rewrite turns two consecutive items into one list element
      with one `<li>` per item. */
  lemma TwoItemList(kind: ListKind, m1: string, a: string, m2: string, b: string)
    requires TwoItems(kind, m1, a, m2, b)
    ensures ReplaceLists(kind, m1 + " " + a + "\n" + m2 + " " + b, true) ==
            (if kind == Bullet then "<ul>" else "<ol>") + (Li(a) + Li(b)) +
            (if kind == Bullet then "</ul>" else "</ol>")
  {
    var s := m1 + " " + a + "\n" + m2 + " " + b;
    var tail := "\n" + m2 + " " + b;
    var rest := " " + (a + tail);
    assert s == m1 + " " + a + tail && s == m1 + rest;
    TwoItemsAt(kind, m1, a, m2, b, s);
    ReplaceListsWhole(kind, s, |m1|);
    DropPrefix(m1, rest, s);
    TwoItemHtml(kind, a, m2, b);
  }

  /** One space and then text without surrounding white space trims to the
      text. */
  lemma TrimLeadingSpace(x: string)
    requires x != [] && !IsSpace(x[0]) && !IsSpace(x[|x| - 1])
    ensures Trim(" " + x) == x
  {
    assert (" " + x)[1..] == x;
    assert TrimStart(" " + x) == TrimStart(x);
  }

  // ---------------------------------------------------------------------
  // Paragraphs

  function Newlines(k: nat): (r: string)
    ensures |r| == k && forall i :: 0 <= i < k ==> r[i] == '\n'
  {
    seq(k, _ => '\n')
  }

  lemma {:induction false} NewlineRunOf(k: nat, y: string)
    requires y == [] || y[0] != '\n'
    ensures NewlineRun(Newlines(k) + y) == k
    decreases k
  {
    var s := Newlines(k) + y;
    if k == 0 {
      assert s == y;
    } else {
      assert s[0] == '\n';
      assert s[1..] == Newlines(k - 1) + y;
      NewlineRunOf(k - 1, y);
    }
  }

  /** A run of two or more newlines between two lines separates two blocks,
      each converted on its own and joined by a single newline. */
  lemma BlankLinesSeparate(x: string, k: nat, y: string)
    requires '\n' !in x && '\n' !in y && k >= 2
    ensures Paragraphs(x + Newlines(k) + y) == Block(x) + "\n" + Block(y)
  {
    var s := x + (Newlines(k) + y);
    assert s == x + Newlines(k) + y;
    forall i | 0 <= i < |x| ensures s[i] != '\n' {
      assert s[i] == x[i];
    }
    assert s[|x|..] == Newlines(k) + y;
    NewlineRunOf(k, y);
    SplitFound(BlankLines, s, |x|, k);
    assert s[..|x|] == x;
    assert s[|x|..][k..] == y;
    SplitSingle(BlankLines, y);
    assert SplitAll(BlankLines, s) == [x, y];
    assert Blocks([x, y]) == [Block(x), Block(y)] by {
      assert [x, y][1..] == [y];
      assert [y][1..] == [];
    }
    assert Join([Block(x), Block(y)], '\n') == Block(x) + "\n" + Block(y) by {
      assert [Block(x), Block(y)][1..] == [Block(y)];
    }
  }

  lemma {:induction false} LineBreaksConcat(a: string, b: string)
    ensures LineBreaks(a + b) == LineBreaks(a) + LineBreaks(b)
    decreases |a|
  {
    if a == [] {
      assert a + b == b;
    } else {
      assert (a + b)[0] == a[0];
      assert (a + b)[1..] == a[1..] + b;
      LineBreaksConcat(a[1..], b);
    }
  }


  /** Text starting with a letter is no pass-through tag. */
  lemma LetterNotTag(b: string)
    requires b != [] && IsLetter(b[0])
    ensures !PassesThrough(b)
  {
    var l := Lower(b);
    assert l[0] == LowerChar(b[0]) != '<';
    CharDiffers(l, "<h", 0);
    CharDiffers(l, "<ul>", 0);
    CharDiffers(l, "<ol>", 0);
    CharDiffers(l, "<blockquote>", 0);
    CharDiffers(l, "<hr", 0);
    CharDiffers(l, "<img ", 0);
  }

  /** A block holding one single newline is not split. */
  lemma OneNewlineOneBlock(x: string, y: string)
    requires '\n' !in x && '\n' !in y
    ensures SplitAll(BlankLines, x + "\n" + y) == [x + "\n" + y]
  {
    var s := x + "\n" + y;
    forall i | 0 <= i < |x| ensures s[i] != '\n' {
      assert s[i] == x[i];
    }
    SplitSkip(BlankLines, s, 0, |x|);
    assert s[|x|..] == "\n" + y;
    assert NewlineRun(s[|x|..]) == 1 by {
      assert s[|x|..][1..] == y;
      assert y == [] || y[0] != '\n';
    }
    assert SplitFrom(BlankLines, s, |x|) == SplitFrom(BlankLines, s, |x| + 1);
    forall i | |x| + 1 <= i < |s| ensures s[i] != '\n' {
      assert s[i] == y[i - |x| - 1];
    }
    SplitSkip(BlankLines, s, |x| + 1, |s|);
  }

  /** The newline between two lines becomes `<br />`. */
  lemma OneLineBreak(x: string, y: string)
    requires '\n' !in x && '\n' !in y
    ensures LineBreaks(x + "\n" + y) == x + "<br />" + y
  {
    LineBreaksConcat(x + "\n", y);
    LineBreaksConcat(x, "\n");
    assert LineBreaks("\n") == "<br />" + LineBreaks([]);
  }

  /** A single newline inside a block is a line break in the paragraph. */
  lemma SingleNewlineBreaks(x: string, y: string)
    requires x != [] && IsLetter(x[0]) && '\n' !in x && '\n' !in y
    ensures Paragraphs(x + "\n" + y) == "<p>" + x + "<br />" + y + "</p>"
  {
    var s := x + "\n" + y;
    assert Block(s) == "<p>" + x + "<br />" + y + "</p>" by {
      assert s[0] == x[0];
      LetterNotTag(s);
      OneLineBreak(x, y);
    }
    OneNewlineOneBlock(x, y);
    assert Blocks([s]) == [Block(s)];
    assert Join([Block(s)], '\n') == Block(s);
  }

  /** Empty input is one empty paragraph. */
  lemma EmptyInput()
    ensures MarkdownToHtml("") == "<p></p>"
  {
    assert Lower("") == "";
    assert !PassesThrough("");
  }
}

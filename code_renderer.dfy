/** The Markdown renderer's override for fenced and indented code blocks: every
    run of four spaces becomes a tab, the language is the first word of the info
    string, a configured highlighter may replace the code, and the result is
    wrapped in `<pre><code>` with an `hljs <lang>` class when there is a
    language. The function bound to the free name `escape` and the highlighter
    are defined outside build.js and are parameters here. */
module CodeRenderer {
  import opened Wrappers

  const FourSpaces: string := "    "

  // ---------------------------------------------------------------------------
  // Spaces to tabs

  /** The global replace of four spaces by a tab: the pattern is matched left to
      right, and after a match the search resumes after the four spaces. */
  function ConvertTabs(code: string): string {
    if |code| >= 4 && code[..4] == FourSpaces then "\t" + ConvertTabs(code[4..])
    else if code == [] then []
    else [code[0]] + ConvertTabs(code[1..])
  }

  function Repeat(c: char, n: nat): (r: string)
    ensures |r| == n && forall i :: 0 <= i < n ==> r[i] == c
  {
    if n == 0 then [] else [c] + Repeat(c, n - 1)
  }

  /** The number of spaces `s` starts with. */
  function LeadingSpaces(s: string): (n: nat)
    ensures n <= |s|
    ensures forall i :: 0 <= i < n ==> s[i] == ' '
    ensures n < |s| ==> s[n] != ' '
  {
    if s == [] || s[0] != ' ' then 0 else 1 + LeadingSpaces(s[1..])
  }

  /** Reference definition, run by run: a maximal run of n spaces becomes n / 4
      tabs followed by n % 4 spaces, and every other character is copied. */
  function ByRuns(s: string): string
    decreases |s|
  {
    if s == [] then []
    else if s[0] != ' ' then [s[0]] + ByRuns(s[1..])
    else
      var n := LeadingSpaces(s);
      Repeat('\t', n / 4) + Repeat(' ', n % 4) + ByRuns(s[n..])
  }

  /** What a run of n spaces in front of `t` converts to. */
  function RunImage(n: nat, t: string): string {
    Repeat('\t', n / 4) + Repeat(' ', n % 4) + ConvertTabs(t)
  }

  /** The first four spaces of a run become one tab. */
  lemma FullGroupConverts(n: nat, t: string)
    requires n >= 4
    requires ConvertTabs(Repeat(' ', n - 4) + t) == RunImage(n - 4, t)
    ensures ConvertTabs(Repeat(' ', n) + t) == RunImage(n, t)
  {
    var s := Repeat(' ', n) + t;
    assert s[..4] == FourSpaces;
    assert s[4..] == Repeat(' ', n - 4) + t;
    assert (n - 4) / 4 == n / 4 - 1 && (n - 4) % 4 == n % 4;
    assert Repeat('\t', n / 4) == "\t" + Repeat('\t', (n - 4) / 4);
  }

  /** In a run shorter than four spaces, the first space is copied. */
  lemma ShortRunConverts(n: nat, t: string)
    requires 0 < n < 4
    requires t == [] || t[0] != ' '
    requires ConvertTabs(Repeat(' ', n - 1) + t) == RunImage(n - 1, t)
    ensures ConvertTabs(Repeat(' ', n) + t) == RunImage(n, t)
  {
    var s := Repeat(' ', n) + t;
    assert !(|s| >= 4 && s[..4] == FourSpaces) by {
      if |s| >= 4 {
        assert s[..4][n] == t[0];
      }
    }
    assert s[0] == ' ' && s[1..] == Repeat(' ', n - 1) + t;
    assert Repeat(' ', n) == " " + Repeat(' ', n - 1);
    assert n / 4 == 0 && n % 4 == n && (n - 1) / 4 == 0 && (n - 1) % 4 == n - 1;
    calc {
      ConvertTabs(s);
      [s[0]] + ConvertTabs(s[1..]);
      " " + RunImage(n - 1, t);
      " " + Repeat(' ', n - 1) + ConvertTabs(t);
      Repeat(' ', n) + ConvertTabs(t);
      RunImage(n, t);
    }
  }

  /** A run of n spaces followed by a non-space (or the end) converts to n / 4
      tabs and n % 4 spaces, in front of the conversion of the rest. */
  lemma {:induction false} SpaceRunConverts(n: nat, t: string)
    requires t == [] || t[0] != ' '
    ensures ConvertTabs(Repeat(' ', n) + t) == RunImage(n, t)
  {
    if n >= 4 {
      SpaceRunConverts(n - 4, t);
      FullGroupConverts(n, t);
    } else if n > 0 {
      SpaceRunConverts(n - 1, t);
      ShortRunConverts(n, t);
    } else {
      assert Repeat(' ', n) + t == t;
    }
  }

  /** The conversion agrees with the run-by-run reference on every input. */
  lemma {:induction false} ConvertTabsByRuns(s: string)
    ensures ConvertTabs(s) == ByRuns(s)
    decreases |s|
  {
    if s == [] {
    } else if s[0] != ' ' {
      ConvertTabsByRuns(s[1..]);
    } else {
      var n := LeadingSpaces(s);
      var t := s[n..];
      assert s == Repeat(' ', n) + t;
      SpaceRunConverts(n, t);
      ConvertTabsByRuns(t);
    }
  }

  /** No four consecutive characters of `s` are all spaces. */
  predicate NoFourSpaces(s: string) {
    |s| < 4 || (s[..4] != FourSpaces && NoFourSpaces(s[1..]))
  }

  lemma {:induction false} PrependKeepsNoFourSpaces(c: char, x: string)
    requires NoFourSpaces(x)
    requires c != ' ' || LeadingSpaces(x) < 3
    ensures NoFourSpaces([c] + x)
  {
    var s := [c] + x;
    assert s[1..] == x;
    if |s| >= 4 {
      if c == ' ' {
        var n := LeadingSpaces(x);
        assert s[..4][n + 1] == x[n] != ' ';
      } else {
        assert s[..4][0] == c;
      }
    }
  }

  /** After the conversion no four spaces are left in a row; the result starts
      with fewer than four spaces, and no more than the input did. */
  lemma {:induction false} ConvertedHasNoFourSpaces(s: string)
    ensures NoFourSpaces(ConvertTabs(s))
    ensures LeadingSpaces(ConvertTabs(s)) <= LeadingSpaces(s)
    ensures LeadingSpaces(ConvertTabs(s)) < 4
  {
    if |s| >= 4 && s[..4] == FourSpaces {
      ConvertedHasNoFourSpaces(s[4..]);
      PrependKeepsNoFourSpaces('\t', ConvertTabs(s[4..]));
    } else if s == [] {
    } else {
      ConvertedHasNoFourSpaces(s[1..]);
      var r := ConvertTabs(s[1..]);
      if s[0] == ' ' {
        assert LeadingSpaces(s) == 1 + LeadingSpaces(s[1..]);
      }
      PrependKeepsNoFourSpaces(s[0], r);
      assert ([s[0]] + r)[1..] == r;
    }
  }

  // ---------------------------------------------------------------------------
  // The language

  /** The characters the `\s` class of JavaScript regular expressions matches:
      the white-space and line-terminator characters of ECMAScript. */
  predicate IsSpace(c: char) {
    var u := c as int;
    u == 0x09 || u == 0x0A || u == 0x0B || u == 0x0C || u == 0x0D || u == 0x20 ||
    u == 0xA0 || u == 0x1680 || (0x2000 <= u <= 0x200A) || u == 0x2028 || u == 0x2029 ||
    u == 0x202F || u == 0x205F || u == 0x3000 || u == 0xFEFF
  }

  /** What the pattern `\S*` (any number of non-space characters) matches at the
      start of `s`: the longest prefix without white space. */
  function LeadingWord(s: string): (w: string)
    ensures w <= s
    ensures forall i :: 0 <= i < |w| ==> !IsSpace(w[i])
    ensures |w| < |s| ==> IsSpace(s[|w|])
  {
    if s == [] || IsSpace(s[0]) then [] else [s[0]] + LeadingWord(s[1..])
  }

  /** The language named by the info string; a missing info string counts as
      empty. */
  function Lang(info: Option<string>): (lang: string)
    ensures info.None? ==> lang == ""
    ensures info.Some? ==> lang <= info.value
    ensures forall i :: 0 <= i < |lang| ==> !IsSpace(lang[i])
    ensures info.Some? && |lang| < |info.value| ==> IsSpace(info.value[|lang|])
    ensures info.Some? && info.value != [] && IsSpace(info.value[0]) ==> lang == ""
  {
    match info
    case None => ""
    case Some(s) => LeadingWord(s)
  }

  // ---------------------------------------------------------------------------
  // Rendering

  /** The configured highlighter: given the code and the language, markup to use
      instead of the code, or nothing. */
  type Highlighter = (string, string) -> Option<string>

  /** The markup that replaces the code: only a highlighter's answer that is
      present and differs from the code it was given. */
  function Highlighted(code: string, lang: string, highlight: Option<Highlighter>): (out: Option<string>)
    ensures out.Some? ==> highlight.Some? && highlight.value(code, lang) == out && out.value != code
    ensures out.None? ==> highlight.None? || highlight.value(code, lang).None? || highlight.value(code, lang).value == code
  {
    match highlight
    case None => None
    case Some(h) =>
      var out := h(code, lang);
      if out.Some? && out.value != code then out else None
  }

  /** The opening tag: a class naming the language only when there is one. */
  function OpenTag(lang: string, escape: string -> string): string {
    if lang == "" then "<pre><code>" else "<pre><code class=\"hljs " + escape(lang) + "\">"
  }

  /** The closing tag: a newline follows it only when there is a language. */
  function CloseTag(lang: string): string {
    if lang == "" then "</code></pre>" else "</code></pre>\n"
  }

  predicate EndsWith(s: string, suffix: string) {
    |suffix| <= |s| && s[|s| - |suffix|..] == suffix
  }

  /** The override: `escaped` says the caller already escaped the code, and
      `escape` is whatever the free name `escape` in build.js resolves to,
      applied with its second argument `true`. */
  function RenderCode(code: string, info: Option<string>, escaped: bool,
                      highlight: Option<Highlighter>, escape: string -> string): (html: string)
    ensures "<pre><code" <= html && |html| > 10
    ensures html[10] == '>' <==> Lang(info) == ""
    ensures EndsWith(html, if Lang(info) == "" then "</code></pre>" else "</code></pre>\n")
  {
    var converted := ConvertTabs(code);
    var lang := Lang(info);
    var out := Highlighted(converted, lang, highlight);
    var body := if out.Some? then out.value else if escaped then converted else escape(converted);
    OpenTag(lang, escape) + body + CloseTag(lang)
  }

  /** When the highlighter answers with different markup, that markup is the body
      as it stands, not escaped again, whatever `escaped` was. */
  lemma HighlightedBodyNotEscaped(code: string, info: Option<string>, escaped: bool,
                                  h: Highlighter, escape: string -> string)
    requires h(ConvertTabs(code), Lang(info)).Some?
    requires h(ConvertTabs(code), Lang(info)).value != ConvertTabs(code)
    ensures RenderCode(code, info, escaped, Some(h), escape) ==
            OpenTag(Lang(info), escape) + h(ConvertTabs(code), Lang(info)).value + CloseTag(Lang(info))
  {
  }

  /** Otherwise the body is the converted code, escaped unless the caller said it
      already was. */
  lemma PlainBodyEscaped(code: string, info: Option<string>, escaped: bool,
                         highlight: Option<Highlighter>, escape: string -> string)
    requires Highlighted(ConvertTabs(code), Lang(info), highlight).None?
    ensures RenderCode(code, info, escaped, highlight, escape) ==
            OpenTag(Lang(info), escape)
            + (if escaped then ConvertTabs(code) else escape(ConvertTabs(code)))
            + CloseTag(Lang(info))
  {
  }

  /** Without a highlighter and with code the caller already escaped, the block
      shows the code with its space runs turned into tabs, and no four spaces in
      a row remain. */
  lemma PreEscapedBlockHasNoFourSpaces(code: string, info: Option<string>, escape: string -> string)
    ensures var html := RenderCode(code, info, true, None, escape);
            var open := OpenTag(Lang(info), escape);
            var close := CloseTag(Lang(info));
            html == open + ByRuns(code) + close &&
            NoFourSpaces(html[|open|..|html| - |close|])
  {
    ConvertTabsByRuns(code);
    ConvertedHasNoFourSpaces(code);
    var html := RenderCode(code, info, true, None, escape);
    var open := OpenTag(Lang(info), escape);
    assert html[|open|..|html| - |CloseTag(Lang(info))|] == ConvertTabs(code);
  }
}

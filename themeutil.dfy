/**
 * Theming (`cmd/quilt-web/theme/ThemeUtil.ts`): the `bg` helper, the CSS
 * text of a theme's custom properties and of the spacing utilities, and the
 * registry that injects each theme's stylesheet once per theme name.
 */
module ThemeUtil {
  import opened Strings

  /** A theme: its name and its tokens in the order `Object.entries` lists them. */
  datatype Theme = Theme(name: string, tokens: seq<(string, string)>)

  /** `ThemeUtil.spacing`, in key order. */
  const Spacing: seq<(string, string)> :=
    [("1", "2px"), ("2", "4px"), ("3", "8px"), ("4", "12px"), ("5", "16px"), ("6", "24px")]

  /** `ThemeUtil.bg(variant)`. */
  function Bg(variant: string): string
  {
    if variant == "primary" then "var(--bgPrimary)" else "var(--bgSecondary)"
  }

  /** "primary" reads the primary background variable; every other variant the secondary one. */
  lemma BgVariants(variant: string)
    ensures Bg("primary") == "var(--bgPrimary)"
    ensures variant != "primary" ==> Bg(variant) == "var(--bgSecondary)"
  {
  }

  // CSS text

  /** Lines of text, each followed by a line break. */
  function Terminated(lines: seq<string>): string
  {
    if lines == [] then "" else lines[0] + "\n" + Terminated(lines[1..])
  }

  lemma {:induction false} TerminatedSnoc(lines: seq<string>, line: string)
    ensures Terminated(lines + [line]) == Terminated(lines) + line + "\n"
  {
    if lines == [] {
      assert lines + [line] == [line];
    } else {
      assert (lines + [line])[1..] == lines[1..] + [line];
      TerminatedSnoc(lines[1..], line);
    }
  }

  /** Joining lines with line breaks is the terminated lines before the last one. */
  lemma {:induction false} JoinTerminated(lines: seq<string>, last: string)
    ensures Join(lines + [last], "\n") == Terminated(lines) + last
  {
    if lines == [] {
      assert lines + [last] == [last];
    } else {
      assert (lines + [last])[1..] == lines[1..] + [last];
      JoinTerminated(lines[1..], last);
    }
  }

  function ThemeOpening(name: string): string
  {
    "[data-theme=\"" + name + "\"] {"
  }

  /** One custom property declaration. */
  function TokenText(token: (string, string)): string
  {
    "--" + token.0 + ": " + token.1 + ";"
  }

  function TokenTexts(tokens: seq<(string, string)>): (r: seq<string>)
    ensures |r| == |tokens|
    ensures forall k | 0 <= k < |tokens| :: r[k] == TokenText(tokens[k])
  {
    seq(|tokens|, k requires 0 <= k < |tokens| => TokenText(tokens[k]))
  }

  /** The stylesheet of a theme: the selector for its name, one declaration per token in order, then `}`. */
  function ThemeCss(theme: Theme): string
  {
    ThemeOpening(theme.name) + "\n" + Terminated(TokenTexts(theme.tokens)) + "}"
  }

  lemma OpeningLine(name: string)
    ensures "" + "[data-theme=\"" + name + "\"] {\n" == ThemeOpening(name) + "\n" + Terminated(TokenTexts([]))
  {
  }

  /** Adding a terminated line to a text built from lines. */
  lemma AppendLine(head: string, lines: seq<string>, line: string)
    ensures head + Terminated(lines) + (line + "\n") == head + Terminated(lines + [line])
  {
    TerminatedSnoc(lines, line);
  }

  lemma TokenTextsSnoc(tokens: seq<(string, string)>, i: nat)
    requires i < |tokens|
    ensures TokenTexts(tokens[..i + 1]) == TokenTexts(tokens[..i]) + [TokenText(tokens[i])]
  {
  }

  /** The stylesheet building loop of `injectThemeAsStylesheet`. */
  method BuildThemeCss(theme: Theme) returns (css: string)
    ensures css == ThemeCss(theme)
  {
    css := "";
    css := css + "[data-theme=\"" + theme.name + "\"] {\n";
    OpeningLine(theme.name);
    var head := ThemeOpening(theme.name) + "\n";
    var i := 0;
    while i < |theme.tokens|
      invariant 0 <= i <= |theme.tokens|
      invariant css == head + Terminated(TokenTexts(theme.tokens[..i]))
    {
      var (tokenName, tokenValue) := theme.tokens[i];
      AppendLine(head, TokenTexts(theme.tokens[..i]), TokenText(theme.tokens[i]));
      TokenTextsSnoc(theme.tokens, i);
      css := css + ("--" + tokenName + ": " + tokenValue + ";\n");
      i := i + 1;
    }
    assert theme.tokens[..i] == theme.tokens;
    css := css + "}";
  }

  predicate OneLine(s: string)
  {
    '\n' !in s
  }

  /**
   * Read line by line, a theme's stylesheet is its selector line, one
   * declaration line per token in order, and the closing `}`, provided the
   * name and the tokens hold no line break.
   */
  lemma ThemeCssLines(theme: Theme)
    requires OneLine(theme.name)
    requires forall k | 0 <= k < |theme.tokens| :: OneLine(theme.tokens[k].0) && OneLine(theme.tokens[k].1)
    ensures Split(ThemeCss(theme), '\n') == [ThemeOpening(theme.name)] + TokenTexts(theme.tokens) + ["}"]
  {
    var lines := [ThemeOpening(theme.name)] + TokenTexts(theme.tokens);
    JoinTerminated(lines, "}");
    assert lines[1..] == TokenTexts(theme.tokens);
    assert Join(lines + ["}"], "\n") == ThemeCss(theme);
    forall k | 0 <= k < |lines + ["}"]| ensures '\n' !in (lines + ["}"])[k] {
      if 1 <= k <= |theme.tokens| {
        assert (lines + ["}"])[k] == TokenText(theme.tokens[k - 1]);
      }
    }
    SplitJoin(lines + ["}"], '\n');
  }

  /** One spacing variable declaration. */
  function SpacingText(entry: (string, string)): string
  {
    " --spacing-" + entry.0 + ": " + entry.1 + ";"
  }

  function SpacingTexts(entries: seq<(string, string)>): (r: seq<string>)
    ensures |r| == |entries|
    ensures forall k | 0 <= k < |entries| :: r[k] == SpacingText(entries[k])
  {
    seq(|entries|, k requires 0 <= k < |entries| => SpacingText(entries[k]))
  }

  lemma SpacingTextsSnoc(entries: seq<(string, string)>, i: nat)
    requires i < |entries|
    ensures SpacingTexts(entries[..i + 1]) == SpacingTexts(entries[..i]) + [SpacingText(entries[i])]
  {
  }

  /** The utilities stylesheet for a spacing scale: `:root`, one variable per key in order, then `}`. */
  function UtilitiesCss(spacing: seq<(string, string)>): string
  {
    ":root {\n" + Terminated(SpacingTexts(spacing)) + "}"
  }

  /** The stylesheet building loop of `injectThemeUtilities`, over the entries of the spacing scale. */
  method BuildUtilitiesCss(spacing: seq<(string, string)>) returns (css: string)
    ensures css == UtilitiesCss(spacing)
  {
    css := ":root {\n";
    assert css == ":root {\n" + Terminated(SpacingTexts(spacing[..0]));
    var i := 0;
    while i < |spacing|
      invariant 0 <= i <= |spacing|
      invariant css == ":root {\n" + Terminated(SpacingTexts(spacing[..i]))
    {
      var (key, value) := spacing[i];
      AppendLine(":root {\n", SpacingTexts(spacing[..i]), SpacingText(spacing[i]));
      SpacingTextsSnoc(spacing, i);
      css := css + (" --spacing-" + key + ": " + value + ";\n");
      i := i + 1;
    }
    assert spacing[..i] == spacing;
    css := css + "}";
  }

  /**
   * Read line by line, the utilities stylesheet is `:root {`, one variable
   * declaration per entry of the scale in key order, and the closing `}`,
   * provided the keys and values hold no line break (as the fixed scale's do).
   */
  lemma UtilitiesCssLines(spacing: seq<(string, string)>)
    requires forall k | 0 <= k < |spacing| :: OneLine(spacing[k].0) && OneLine(spacing[k].1)
    ensures Split(UtilitiesCss(spacing), '\n') == [":root {"] + SpacingTexts(spacing) + ["}"]
  {
    var lines := [":root {"] + SpacingTexts(spacing);
    JoinTerminated(lines, "}");
    assert lines[1..] == SpacingTexts(spacing);
    assert Join(lines + ["}"], "\n") == UtilitiesCss(spacing);
    forall k | 0 <= k < |lines + ["}"]| ensures '\n' !in (lines + ["}"])[k] {
      if 1 <= k <= |spacing| {
        assert (lines + ["}"])[k] == SpacingText(spacing[k - 1]);
      }
    }
    SplitJoin(lines + ["}"], '\n');
  }

  /** The fixed scale has six entries, keys "1" to "6" in order, with no line breaks. */
  lemma SpacingScale()
    ensures |SpacingTexts(Spacing)| == 6
    ensures forall k | 0 <= k < |Spacing| :: OneLine(Spacing[k].0) && OneLine(Spacing[k].1)
    ensures Spacing[0].0 == "1" && Spacing[5].0 == "6" && Spacing[5].1 == "24px"
  {
  }

  // The injection registry

  /** `injectThemeAsStylesheet` on the sheets and the registered names: a theme whose name is registered is skipped. */
  function Inject(sheets: seq<string>, injected: set<string>, theme: Theme): (seq<string>, set<string>)
  {
    if theme.name in injected then (sheets, injected)
    else (sheets + [ThemeCss(theme)], injected + {theme.name})
  }

  /**
   * A fresh name adds exactly one sheet, the theme's, after the existing
   * ones, and registers the name; a registered name changes nothing, even
   * for a theme with other tokens.
   */
  lemma InjectOnce(sheets: seq<string>, injected: set<string>, theme: Theme)
    ensures theme.name !in injected ==> Inject(sheets, injected, theme) == (sheets + [ThemeCss(theme)], injected + {theme.name})
    ensures theme.name in injected ==> Inject(sheets, injected, theme) == (sheets, injected)
    ensures Inject(sheets, injected, theme).1 == injected + {theme.name}
  {
  }

  /** Injecting again under the same name, whatever the tokens, changes nothing. */
  lemma InjectIdempotentByName(sheets: seq<string>, injected: set<string>, theme: Theme, again: Theme)
    requires again.name == theme.name
    ensures var (s, i) := Inject(sheets, injected, theme); Inject(s, i, again) == (s, i)
  {
  }

  /** `document.adoptedStyleSheets`, as CSS texts, and the module's `INJECTED_THEMES` set. */
  class StyleRegistry {
    var adoptedStyleSheets: seq<string>
    var injectedThemes: set<string>

    constructor()
      ensures adoptedStyleSheets == [] && injectedThemes == {}
    {
      adoptedStyleSheets := [];
      injectedThemes := {};
    }

    method InjectThemeAsStylesheet(theme: Theme)
      modifies this
      ensures (adoptedStyleSheets, injectedThemes) == Inject(old(adoptedStyleSheets), old(injectedThemes), theme)
    {
      if theme.name in injectedThemes {
        return;
      }
      var css := BuildThemeCss(theme);
      adoptedStyleSheets := adoptedStyleSheets + [css];
      injectedThemes := injectedThemes + {theme.name};
    }

    /** `injectThemeUtilities`: appends the utilities sheet on every call; it is not registered. */
    method InjectThemeUtilities()
      modifies this
      ensures adoptedStyleSheets == old(adoptedStyleSheets) + [UtilitiesCss(Spacing)]
      ensures injectedThemes == old(injectedThemes)
    {
      var css := BuildUtilitiesCss(Spacing);
      adoptedStyleSheets := adoptedStyleSheets + [css];
    }
  }
}

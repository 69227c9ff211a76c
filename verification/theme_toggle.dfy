/** The theme switch of the site header (client/src/components/ThemeToggle.tsx):
    a button that cycles light, dark, system and announces the theme it will
    switch to. The theme value comes from a provider outside this model and may
    be any string. */
module ThemeToggle {

  /** The component's `themes` list: values and labels, in cycle order. */
  const Themes: seq<string> := ["light", "dark", "system"]
  const Labels: seq<string> := ["Light", "Dark", "System"]

  /** `findIndex`: the first position holding `theme`, or -1. */
  function FindIndex(values: seq<string>, theme: string): (k: int)
    ensures -1 <= k < |values|
    ensures k >= 0 ==> values[k] == theme && forall j :: 0 <= j < k ==> values[j] != theme
    ensures k == -1 <==> theme !in values
  {
    if |values| == 0 then -1
    else if values[0] == theme then 0
    else
      var k := FindIndex(values[1..], theme);
      if k == -1 then -1 else k + 1
  }

  /** `(currentIndex + 1) % themes.length`. The left operand is never negative,
      so JavaScript's remainder and Dafny's agree. */
  function NextIndex(theme: string): (n: nat)
    ensures n < |Themes|
  {
    (FindIndex(Themes, theme) + 1) % |Themes|
  }

  /** The value `handleThemeChange` passes to `setTheme`. */
  function NextTheme(theme: string): (next: string)
    ensures next in Themes
    ensures next != theme
  {
    Themes[NextIndex(theme)]
  }

  /** `currentTheme`: the entry for the current value, or the first entry. */
  function CurrentIndex(theme: string): (c: nat)
    ensures c < |Themes|
    ensures theme in Themes ==> Themes[c] == theme
    ensures theme !in Themes ==> c == 0
  {
    var k := FindIndex(Themes, theme);
    if k == -1 then 0 else k
  }

  function LowerChar(c: char): char
  {
    if 'A' <= c <= 'Z' then (c as int + 32) as char else c
  }

  /** `toLowerCase` on ASCII text. */
  function Lower(s: string): (r: string)
    ensures |r| == |s|
    ensures forall i :: 0 <= i < |s| ==> r[i] == LowerChar(s[i])
  {
    if |s| == 0 then "" else [LowerChar(s[0])] + Lower(s[1..])
  }

  /** Each label, lower-cased, is its theme's value. */
  lemma LabelsLowerToValues()
    ensures |Labels| == |Themes|
    ensures forall i :: 0 <= i < |Themes| ==> Lower(Labels[i]) == Themes[i]
  {
    assert Lower("Light") == "light";
    assert Lower("Dark") == "dark";
    assert Lower("System") == "system";
  }

  /** The button's `aria-label`: it announces exactly the theme a click
      switches to. */
  function AriaLabel(theme: string): (text: string)
    ensures text == "Switch to " + NextTheme(theme) + " theme"
  {
    LabelsLowerToValues();
    "Switch to " + Lower(Labels[NextIndex(theme)]) + " theme"
  }

  /** light to dark, dark to system, system to light. */
  lemma CycleOrder()
    ensures NextTheme("light") == "dark"
    ensures NextTheme("dark") == "system"
    ensures NextTheme("system") == "light"
  {
    assert FindIndex(Themes, "light") == 0;
    assert FindIndex(Themes, "dark") == 1;
    assert FindIndex(Themes, "system") == 2;
  }

  /** Three clicks bring a known theme back. */
  lemma ThreeTogglesReturn(theme: string)
    requires theme in Themes
    ensures NextTheme(NextTheme(NextTheme(theme))) == theme
  {
    CycleOrder();
  }

  /** An unknown value switches to light and is shown as light. */
  lemma UnknownThemeFallsBackToLight(theme: string)
    requires theme !in Themes
    ensures NextTheme(theme) == "light"
    ensures Themes[CurrentIndex(theme)] == "light"
  {
  }

  /** The theme state the button drives. */
  class ThemeState {
    var theme: string

    constructor (initial: string)
      ensures theme == initial
    {
      theme := initial;
    }

    /** `handleThemeChange`: moves to the next theme in the cycle. */
    method HandleThemeChange()
      modifies this
      ensures theme == NextTheme(old(theme))
      ensures old(theme) in Themes ==> FindIndex(Themes, theme) == (FindIndex(Themes, old(theme)) + 1) % 3
    {
      theme := Themes[(FindIndex(Themes, theme) + 1) % |Themes|];
    }
  }
}

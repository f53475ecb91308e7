/** Theme resolution: the stored preference (`light`, `dark` or `system`)
    becomes a class on the document root and a browser theme colour, and a
    listener follows the system colour scheme. */
module Theme {

  import opened Common

  /** The theme a preference stands for; `system` follows the colour-scheme
      media query. */
  function Effective(theme: string, prefersDark: bool): (r: string)
    ensures theme == "system" ==> (r == "dark" <==> prefersDark) && (r == "light" <==> !prefersDark)
    ensures theme != "system" ==> r == theme
  {
    if theme == "system" then (if prefersDark then "dark" else "light") else theme
  }

  /** The `theme-color` meta content. */
  function MetaColor(effective: string): (r: string)
    ensures r == "#1f2937" <==> effective == "dark"
    ensures r == "#ffffff" <==> effective != "dark"
  {
    if effective == "dark" then "#1f2937" else "#ffffff"
  }

  /** What the change listener hands its callback. */
  function OnChange(matches: bool): (r: string)
    ensures r == Effective("system", matches)
  {
    if matches then "dark" else "light"
  }

  /** `classList.add` refuses the empty token and tokens with ASCII
      whitespace. */
  predicate ValidToken(t: string)
  {
    t != "" && forall i :: 0 <= i < |t| ==> t[i] !in {' ', '\t', '\n', '\r', '\U{C}'}
  }

  /** The class list after removing both theme classes and adding `effective`. */
  function ThemedClasses(classes: set<string>, effective: string): (r: set<string>)
    ensures effective in r && (effective != "dark" ==> "dark" !in r) && (effective != "light" ==> "light" !in r)
    ensures forall c :: c != "dark" && c != "light" && c != effective ==> (c in r <==> c in classes)
  {
    classes - {"dark", "light"} + {effective}
  }

  /** Applying the same theme again leaves the class list as it is. */
  lemma ThemedClassesIdempotent(classes: set<string>, effective: string)
    ensures ThemedClasses(ThemedClasses(classes, effective), effective) == ThemedClasses(classes, effective)
  {
    var once := ThemedClasses(classes, effective);
    var twice := ThemedClasses(once, effective);
    assert forall c :: c in twice <==> c in once;
  }

  datatype ApplyResult = NoWindow | Applied(effective: string) | Threw

  /** The parts of the page the theme code touches. */
  class Page {
    /** Whether this runs in a browser; during server rendering nothing happens. */
    const hasWindow: bool
    var classes: set<string>
    /** The `meta[name="theme-color"]` content; `None` when there is no such tag. */
    var metaColor: Option<string>
    /** The current answer of `(prefers-color-scheme: dark)`. */
    var prefersDark: bool
    /** The `change` listeners on the media query, by registration. */
    var listeners: seq<nat>
    var nextListener: nat

    ghost predicate Valid()
      reads this
    {
      Distinct(listeners) && forall x :: x in listeners ==> x < nextListener
    }

    constructor(hasWindow: bool, classes: set<string>, metaColor: Option<string>, prefersDark: bool)
      ensures Valid()
      ensures this.hasWindow == hasWindow && this.classes == classes && this.metaColor == metaColor
      ensures this.prefersDark == prefersDark && listeners == []
    {
      this.hasWindow := hasWindow;
      this.classes := classes;
      this.metaColor := metaColor;
      this.prefersDark := prefersDark;
      listeners := [];
      nextListener := 0;
    }

    /** `applyTheme(theme)`. When the effective theme is not a usable class
      token, `classList.add` throws after the theme classes were removed. */
    method ApplyTheme(theme: string) returns (r: ApplyResult)
      modifies this
      ensures prefersDark == old(prefersDark) && listeners == old(listeners) && nextListener == old(nextListener)
      ensures !hasWindow ==> r == NoWindow && classes == old(classes) && metaColor == old(metaColor)
      ensures hasWindow && ValidToken(Effective(theme, prefersDark)) ==>
        && r == Applied(Effective(theme, prefersDark))
        && classes == ThemedClasses(old(classes), Effective(theme, prefersDark))
        && metaColor == (if old(metaColor).Some? then Some(MetaColor(Effective(theme, prefersDark))) else None)
      ensures hasWindow && !ValidToken(Effective(theme, prefersDark)) ==>
        r == Threw && classes == old(classes) - {"dark", "light"} && metaColor == old(metaColor)
    {
      if !hasWindow {
        return NoWindow;
      }
      classes := classes - {"dark", "light"};
      var actual := theme;
      if theme == "system" {
        actual := if prefersDark then "dark" else "light";
      }
      if !ValidToken(actual) {
        return Threw;
      }
      classes := classes + {actual};
      if metaColor.Some? {
        metaColor := Some(if actual == "dark" then "#1f2937" else "#ffffff");
      }
      return Applied(actual);
    }

    /** `watchSystemTheme(callback)`: registers a fresh listener and returns
      it as the teardown's handle; without a window there is nothing to
      register and the teardown does nothing. */
    method WatchSystemTheme() returns (handle: Option<nat>)
      requires Valid()
      modifies this
      ensures Valid()
      ensures classes == old(classes) && metaColor == old(metaColor) && prefersDark == old(prefersDark)
      ensures !hasWindow ==> handle.None? && listeners == old(listeners)
      ensures hasWindow ==> handle.Some? && handle.value !in old(listeners) && listeners == old(listeners) + [handle.value]
    {
      if !hasWindow {
        return None;
      }
      var id := nextListener;
      assert forall i :: 0 <= i < |listeners| ==> listeners[i] in listeners && listeners[i] < id;
      listeners := listeners + [id];
      nextListener := nextListener + 1;
      return Some(id);
    }

    /** The teardown `watchSystemTheme` returned: removes exactly its own
      listener. */
    method Teardown(handle: Option<nat>)
      requires Valid()
      modifies this
      ensures Valid()
      ensures classes == old(classes) && metaColor == old(metaColor) && prefersDark == old(prefersDark)
      ensures handle.None? ==> listeners == old(listeners)
      ensures handle.Some? ==> listeners == Without(old(listeners), handle.value)
      ensures handle.Some? ==> handle.value !in listeners
      ensures handle.Some? ==> forall x :: x in old(listeners) && x != handle.value ==> x in listeners
    {
      if handle.Some? {
        WithoutKeeps(listeners, handle.value);
        listeners := Without(listeners, handle.value);
      }
    }

    /** The system scheme changes: every registered listener calls its
      callback with the new effective theme. */
    method SystemChange(matches: bool) returns (calls: seq<(nat, string)>)
      requires Valid()
      modifies this
      ensures Valid()
      ensures nextListener == old(nextListener)
      ensures prefersDark == matches
      ensures classes == old(classes) && metaColor == old(metaColor) && listeners == old(listeners)
      ensures |calls| == |listeners|
      ensures forall i :: 0 <= i < |calls| ==> calls[i] == (listeners[i], OnChange(matches))
    {
      prefersDark := matches;
      calls := [];
      var i := 0;
      while i < |listeners|
        invariant 0 <= i <= |listeners|
        invariant |calls| == i
        invariant forall k :: 0 <= k < i ==> calls[k] == (listeners[k], OnChange(matches))
      {
        calls := calls + [(listeners[i], OnChange(matches))];
        i := i + 1;
      }
    }
  }

  /** The listeners other than `id`, in order. */
  function Without(s: seq<nat>, id: nat): (r: seq<nat>)
    ensures forall x :: x in r <==> x in s && x != id
    ensures |r| <= |s|
  {
    if s == [] then []
    else if s[0] == id then Without(s[1..], id)
    else [s[0]] + Without(s[1..], id)
  }

  predicate Distinct(s: seq<nat>)
  {
    forall i, j :: 0 <= i < j < |s| ==> s[i] != s[j]
  }

  /** Removing an id from distinct ids keeps them distinct. */
  lemma {:induction false} WithoutKeeps(s: seq<nat>, id: nat)
    requires Distinct(s)
    ensures Distinct(Without(s, id))
  {
    if s != [] {
      assert Distinct(s[1..]) by {
        forall i, j | 0 <= i < j < |s[1..]| ensures s[1..][i] != s[1..][j] {
          assert s[1..][i] == s[i + 1] && s[1..][j] == s[j + 1];
        }
      }
      WithoutKeeps(s[1..], id);
      if s[0] != id {
        assert s[0] !in s[1..];
        assert s[0] !in Without(s[1..], id);
        assert Without(s, id) == [s[0]] + Without(s[1..], id);
      }
    }
  }

  /** Applying the same theme twice in a row answers the same and leaves
      the page as one application does. */
  method ApplyTwice(page: Page, theme: string) returns (first: ApplyResult, second: ApplyResult)
    modifies page
    ensures first == second
    ensures var eff := Effective(theme, old(page.prefersDark));
      page.hasWindow && ValidToken(eff) ==>
        && page.classes == ThemedClasses(old(page.classes), eff)
        && page.metaColor == (if old(page.metaColor).Some? then Some(MetaColor(eff)) else None)
  {
    first := page.ApplyTheme(theme);
    if page.hasWindow && ValidToken(Effective(theme, page.prefersDark)) {
      ThemedClassesIdempotent(old(page.classes), Effective(theme, page.prefersDark));
    }
    second := page.ApplyTheme(theme);
  }
}

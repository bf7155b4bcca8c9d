/** Where the web app finds its images: one base URL, read once from the
    page's configuration, and fixed folders below it for the main menu,
    category, cost, language and item icons. */
module ResourcesProvider {
  import opened Common
  import Ajax = ApiAjaxAdapter
  import ClientItem

  // ---------------------------------------------------------------------------
  // The base URL
  // ---------------------------------------------------------------------------

  predicate IsSlash(c: char) { c == '/' }

  /** `_clearBaseUrl`: empty when the trimmed URL is empty; otherwise the
      trimmed URL with all its trailing slashes replaced by exactly one. */
  function ClearBaseUrl(url: string): (r: string)
    ensures r == "" <==> Ajax.JsTrim(url) == ""
    ensures r != "" ==> r[|r| - 1] == '/' && (|r| == 1 || r[|r| - 2] != '/')
    ensures r != "" ==> var t := Ajax.JsTrim(url);
      |r| - 1 <= |t| && r[..|r| - 1] == t[..|r| - 1] && forall i | |r| - 1 <= i < |t| :: t[i] == '/'
  {
    var t := Ajax.JsTrim(url);
    if t == "" then "" else TrimEnd(t, IsSlash) + "/"
  }

  /** A cleared base URL is left as it is. */
  lemma ClearBaseUrlIdempotent(url: string)
    ensures ClearBaseUrl(ClearBaseUrl(url)) == ClearBaseUrl(url)
  {
    var r := ClearBaseUrl(url);
    if r != "" {
      var t := Ajax.JsTrim(url);
      var u := TrimEnd(t, IsSlash);
      assert r == u + "/";
      assert r[0] == (if u == "" then '/' else t[0]);
      SlashIsNotWhitespace();
      TrimKeeps(r, IsJsWhitespace);
      assert Ajax.JsTrim(r) == r;
      TrimEndAbsorbs(u, "/", IsSlash);
      TrimEndKept(u);
    }
  }

  lemma SlashIsNotWhitespace()
    ensures !IsJsWhitespace('/')
  {
    assert !IsJsLineTerminator('/');
    assert '/' as int == 0x2F;
  }

  lemma TrimEndKept(u: string)
    requires |u| == 0 || !IsSlash(u[|u| - 1])
    ensures TrimEnd(u, IsSlash) == u
  {
  }

  /** On a URL that does not end in two slashes, clearing gives the same
      URL as the API adapter's cleaning. */
  lemma ClearAgreesWithAdapter(url: string)
    requires !EndsWith(Ajax.JsTrim(url), "//")
    ensures ClearBaseUrl(url) == Ajax.CleanBaseUrl(url)
  {
    var t := Ajax.JsTrim(url);
    if t != "" {
      if EndsWith(t, "/") {
        var u := t[..|t| - 1];
        assert t == u + "/";
        assert |u| == 0 || u[|u| - 1] != '/' by {
          if |u| > 0 {
            assert t[|t| - 2..] == [u[|u| - 1], '/'];
          }
        }
        TrimEndAbsorbs(u, "/", IsSlash);
        TrimEndKept(u);
      } else {
        TrimEndKept(t);
      }
    }
  }

  /** `glob_rp_base_url`: unset until `getBaseUrl` first runs. */
  datatype Provider = Provider(baseUrl: Option<string>)

  const NewProvider: Provider := Provider(None)

  /** `getBaseUrl`: the first call clears the page's `RESOURCE_BASE_URL`
      (the empty string when it is not defined) and keeps it; later calls
      return what was kept. */
  function GetBaseUrl(p: Provider, resourceBaseUrl: Option<string>): (r: (string, Provider))
    ensures r.1.baseUrl == Some(r.0)
    ensures p.baseUrl.Some? ==> r == (p.baseUrl.value, p)
    ensures p.baseUrl.None? && resourceBaseUrl.None? ==> r.0 == ""
    ensures p.baseUrl.None? && resourceBaseUrl.Some? ==> r.0 == ClearBaseUrl(resourceBaseUrl.value)
  {
    match p.baseUrl
    case Some(u) => (u, p)
    case None =>
      var u := ClearBaseUrl(match resourceBaseUrl case Some(s) => s case None => "");
      (u, Provider(Some(u)))
  }

  /** The base URL is fixed by the first call: a later change of the
      configuration is not seen. */
  lemma BaseUrlReadOnce(p: Provider, first: Option<string>, later: Option<string>)
    ensures var (u, q) := GetBaseUrl(p, first);
      GetBaseUrl(q, later) == (u, q)
  {
  }

  /** Every base URL the provider hands out is cleared already. */
  lemma BaseUrlIsClear(p: Provider, resourceBaseUrl: Option<string>)
    requires p.baseUrl.Some? ==> ClearBaseUrl(p.baseUrl.value) == p.baseUrl.value
    ensures var u := GetBaseUrl(p, resourceBaseUrl).0; ClearBaseUrl(u) == u
  {
    if p.baseUrl.None? && resourceBaseUrl.Some? {
      ClearBaseUrlIdempotent(resourceBaseUrl.value);
    } else if p.baseUrl.None? {
      assert ClearBaseUrl("") == "" by {
        assert Ajax.JsTrim("") == "";
      }
    }
  }

  // ---------------------------------------------------------------------------
  // Icon URLs
  // ---------------------------------------------------------------------------

  const IconImgExtension: string := "png"
  const IconsDir: string := "ico"
  const MainMenuDir: string := "mainmenu"
  const CostAndLangDir: string := "costandlanguage"
  const ItemIconsDir: string := "items"
  const CategoriesDir: string := "categories"

  /** The file names of the main menu icons, by menu entry. */
  const MainMenuIcons: map<string, string> := map[
    "info" := "infonew",
    "help" := "helpnew",
    "service" := "servicesnew2",
    "leisure" := "leisurenew",
    "link" := "ser-internet",
    "emergency" := "emergency"
  ]

  const UnknownIcon: string := "unknown"

  /** `.png`. */
  const IconSuffix: string := "." + IconImgExtension

  /** The icon file name of a main menu entry: its own, or `unknown` for an
      entry the table does not know. */
  function MainMenuIcon(iconIdent: string): (r: string)
    ensures iconIdent in MainMenuIcons ==> r == MainMenuIcons[iconIdent]
    ensures iconIdent !in MainMenuIcons ==> r == UnknownIcon
  {
    if iconIdent in MainMenuIcons then MainMenuIcons[iconIdent] else UnknownIcon
  }

  /** Distinct known entries have distinct icons, none of them `unknown`:
      the icon tells which entry asked for it. */
  lemma MainMenuIconIdentifies(a: string, b: string)
    requires MainMenuIcon(a) == MainMenuIcon(b)
    ensures a in MainMenuIcons <==> b in MainMenuIcons
    ensures a in MainMenuIcons ==> a == b
  {
  }

  /** `<base>ico/<dir>/<file>`. */
  function IconUrl(base: string, dir: string, file: string): string
  {
    base + IconsDir + "/" + dir + "/" + file
  }

  /** The folder and file of an icon URL below `base`, when it has that
      shape. */
  function ParseIconUrl(base: string, url: string): (r: Option<(string, string)>)
    ensures r.Some? ==> '/' !in r.value.0 && '/' !in r.value.1
  {
    if !StartsWith(url, base) then None
    else
      var pieces := Split(url[|base|..], '/');
      if |pieces| == 3 && pieces[0] == IconsDir then Some((pieces[1], pieces[2])) else None
  }

  /** An icon URL reads back as the folder and file it was built from. */
  lemma IconUrlRoundTrip(base: string, dir: string, file: string)
    requires '/' !in dir && '/' !in file
    ensures ParseIconUrl(base, IconUrl(base, dir, file)) == Some((dir, file))
  {
    var url := IconUrl(base, dir, file);
    assert url[..|base|] == base;
    var rest := url[|base|..];
    assert rest == IconsDir + "/" + dir + "/" + file;
    IconsDirPlain();
    SplitJoin([IconsDir, dir, file], '/');
    assert Join([IconsDir, dir, file], '/') == rest;
  }

  lemma IconsDirPlain()
    ensures '/' !in IconsDir && IconsDir == "ico"
  {
  }

  function MainMenuIconUrl(base: string, iconIdent: string): string
  {
    IconUrl(base, MainMenuDir, MainMenuIcon(iconIdent) + IconSuffix)
  }

  function CategoryIconUrl(base: string, categoryCode: string): string
  {
    IconUrl(base, CategoriesDir, categoryCode + IconSuffix)
  }

  function CostIconUrl(base: string, cost: string): string
  {
    IconUrl(base, CostAndLangDir, cost + IconSuffix)
  }

  function LanguageIconUrl(base: string, language: string): string
  {
    IconUrl(base, CostAndLangDir, language + IconSuffix)
  }

  /** The main menu icon URL names the entry's own icon file, `unknown.png`
      for an unknown entry. */
  lemma MainMenuIconUrlReadsBack(base: string, iconIdent: string)
    ensures ParseIconUrl(base, MainMenuIconUrl(base, iconIdent)) == Some((MainMenuDir, MainMenuIcon(iconIdent) + IconSuffix))
  {
    MainMenuIconsPlain(iconIdent);
    IconUrlRoundTrip(base, MainMenuDir, MainMenuIcon(iconIdent) + IconSuffix);
  }

  lemma MainMenuIconsPlain(iconIdent: string)
    ensures '/' !in MainMenuDir && '/' !in MainMenuIcon(iconIdent) + IconSuffix
  {
    PngPlain();
  }

  /** A category's icon URL reads back as the category's file in the
      categories folder, so distinct codes get distinct URLs. */
  lemma CategoryIconUrlReadsBack(base: string, categoryCode: string)
    requires '/' !in categoryCode
    ensures ParseIconUrl(base, CategoryIconUrl(base, categoryCode)) == Some((CategoriesDir, categoryCode + IconSuffix))
  {
    PngPlain();
    IconUrlRoundTrip(base, CategoriesDir, categoryCode + IconSuffix);
  }

  lemma PngPlain()
    ensures '/' !in CategoriesDir && '/' !in CostAndLangDir && '/' !in IconSuffix
  {
  }

  /** Cost and language icons share one folder: a cost and a language with
      the same name get the same URL. */
  lemma CostAndLanguageShareFolder(base: string, name: string)
    ensures CostIconUrl(base, name) == LanguageIconUrl(base, name)
  {
  }

  // ---------------------------------------------------------------------------
  // Item icons
  // ---------------------------------------------------------------------------

  /** JavaScript's `replace` with a string pattern: the first occurrence
      of `c` removed. */
  function RemoveFirst(s: string, c: char): (r: string)
    ensures c !in s ==> r == s
    ensures c in s ==> |r| == |s| - 1
  {
    match IndexOf(s, c)
    case None => s
    case Some(i) => RemoveAt(s, i)
  }

  /** Every occurrence of `c` removed, the other characters kept in order. */
  function RemoveAll(s: string, c: char): (r: string)
    ensures c !in r
    ensures |r| == |s| - Count(s, c)
    ensures c !in s ==> r == s
  {
    if |s| == 0 then "" else (if s[0] == c then "" else [s[0]]) + RemoveAll(s[1..], c)
  }

  /** Removing the first occurrence leaves all the others. */
  lemma RemoveFirstCount(s: string, c: char)
    ensures Count(RemoveFirst(s, c), c) == if c in s then Count(s, c) - 1 else 0
  {
    match IndexOf(s, c)
    case None =>
    case Some(i) =>
      CountAround(s, i, c);
      assert RemoveFirst(s, c) == s[..i] + s[i + 1..];
  }

  /** The count of `c` in `s` is the count on each side of `s[i]`, plus `s[i]`. */
  lemma CountAround(s: string, i: nat, c: char)
    requires i < |s|
    ensures Count(s, c) == Count(s[..i], c) + (if s[i] == c then 1 else 0) + Count(s[i + 1..], c)
    ensures Count(s[..i] + s[i + 1..], c) == Count(s[..i], c) + Count(s[i + 1..], c)
  {
    assert s == s[..i] + ([s[i]] + s[i + 1..]);
    CountAppend(s[..i], [s[i]] + s[i + 1..], c);
    CountAppend([s[i]], s[i + 1..], c);
    CountAppend(s[..i], s[i + 1..], c);
  }

  lemma {:induction false} RemoveAllAppend(a: string, b: string, c: char)
    ensures RemoveAll(a + b, c) == RemoveAll(a, c) + RemoveAll(b, c)
    decreases |a|
  {
    if |a| == 0 {
      assert a + b == b;
    } else {
      assert (a + b)[1..] == a[1..] + b;
      RemoveAllAppend(a[1..], b, c);
    }
  }

  /** With at most one occurrence the two removals agree. */
  lemma RemoveFirstIsAllForOne(s: string, c: char)
    requires Count(s, c) <= 1
    ensures RemoveFirst(s, c) == RemoveAll(s, c)
  {
    match IndexOf(s, c)
    case None =>
    case Some(i) =>
      CountAround(s, i, c);
      assert c !in s[i + 1..];
      RemoveAllSkips(s, i, c);
  }

  lemma RemoveAllSkips(s: string, i: nat, c: char)
    requires i < |s| && s[i] == c
    ensures RemoveAll(s, c) == RemoveAll(s[..i], c) + RemoveAll(s[i + 1..], c)
  {
    var a, b := s[..i], s[i + 1..];
    var cb := [c] + b;
    assert s == a + cb;
    RemoveAllAppend(a, cb, c);
    assert cb[1..] == b;
    assert RemoveAll(cb, c) == RemoveAll(b, c);
  }

  /** Lower-casing keeps the spaces where they are. */
  lemma {:induction false} LowerKeepsSpaces(s: string)
    ensures Count(ToLower(s), ' ') == Count(s, ' ')
    decreases |s|
  {
    if |s| > 0 {
      assert ToLower(s)[1..] == ToLower(s[1..]);
      LowerKeepsSpaces(s[1..]);
    }
  }

  const ItemIconExtension: string := ".jpg"

  /** The fallback icon file of an item as written: the lower-cased name
      with its first space removed, plus `.jpg`. */
  function ItemIconFileAsWritten(name: string): string
  {
    RemoveFirst(ToLower(name), ' ') + ItemIconExtension
  }

  /** The fallback icon file of an item as intended: the lower-cased name
      with its spaces removed, plus `.jpg`. */
  function ItemIconFile(name: string): (r: string)
    ensures ' ' !in r
    ensures |r| == |name| - Count(name, ' ') + 4
  {
    LowerKeepsSpaces(name);
    JpgPlain();
    RemoveAll(ToLower(name), ' ') + ItemIconExtension
  }

  lemma JpgPlain()
    ensures ' ' !in ItemIconExtension && '/' !in ItemIconExtension && |ItemIconExtension| == 4
  {
  }

  /** Names with a single space give the same file either way; names with
      more keep a space in the file name as written. */
  lemma ItemIconFileAsWrittenKeepsSpaces(name: string)
    ensures Count(name, ' ') <= 1 ==> ItemIconFileAsWritten(name) == ItemIconFile(name)
    ensures Count(name, ' ') >= 2 ==> ' ' in ItemIconFileAsWritten(name)
    ensures Count(name, ' ') >= 2 ==> ItemIconFileAsWritten(name) != ItemIconFile(name)
  {
    var low := ToLower(name);
    LowerKeepsSpaces(name);
    if Count(name, ' ') <= 1 {
      RemoveFirstIsAllForOne(low, ' ');
    } else {
      RemoveFirstCount(low, ' ');
      var w := RemoveFirst(low, ' ');
      assert ' ' in w;
      CountAppend(w, ItemIconExtension, ' ');
      assert ' ' in ItemIconFileAsWritten(name);
    }
  }

  /** `getItemIconUrl` as written: the item's own icon path when it has one,
      otherwise the file named after the item with its first space removed,
      in the item icons folder. */
  function ItemIconUrl(base: string, item: ClientItem.Item): (r: string)
    ensures item.iconUri != "" ==> r == IconUrl(base, ItemIconsDir, item.iconUri)
    ensures item.iconUri == "" ==> r == IconUrl(base, ItemIconsDir, ItemIconFileAsWritten(item.name))
  {
    var relUrl := if item.iconUri == "" then ItemIconFileAsWritten(item.name) else item.iconUri;
    base + IconsDir + "/" + ItemIconsDir + "/" + relUrl
  }

  /** `getItemIconUrl` as intended: the fallback file has every space removed. */
  function ItemIconUrlAsIntended(base: string, item: ClientItem.Item): (r: string)
    ensures item.iconUri != "" ==> r == IconUrl(base, ItemIconsDir, item.iconUri)
    ensures item.iconUri == "" ==> r == IconUrl(base, ItemIconsDir, ItemIconFile(item.name))
  {
    var relUrl := if item.iconUri == "" then ItemIconFile(item.name) else item.iconUri;
    base + IconsDir + "/" + ItemIconsDir + "/" + relUrl
  }

  /** An item without an icon path whose name has no `/` gets a URL that
      reads back as the file named after it; with at most one space in the
      name that file is the intended, space-free one, and with more it
      still holds a space. */
  lemma ItemIconUrlReadsBack(base: string, item: ClientItem.Item)
    requires item.iconUri == "" && '/' !in item.name
    ensures ParseIconUrl(base, ItemIconUrl(base, item)) == Some((ItemIconsDir, ItemIconFileAsWritten(item.name)))
    ensures Count(item.name, ' ') <= 1 ==> ItemIconUrl(base, item) == ItemIconUrlAsIntended(base, item)
    ensures Count(item.name, ' ') >= 2 ==> ' ' in ParseIconUrl(base, ItemIconUrl(base, item)).value.1
  {
    var low := ToLower(item.name);
    forall k | 0 <= k < |low|
      ensures low[k] != '/'
    {
      assert item.name[k] != '/';
    }
    RemoveFirstKeepsOut(low, ' ', '/');
    JpgPlain();
    ItemsDirPlain();
    IconUrlRoundTrip(base, ItemIconsDir, ItemIconFileAsWritten(item.name));
    ItemIconFileAsWrittenKeepsSpaces(item.name);
  }

  /** The URL as intended reads back as the space-free file name. */
  lemma ItemIconUrlAsIntendedReadsBack(base: string, item: ClientItem.Item)
    requires item.iconUri == "" && '/' !in item.name
    ensures ParseIconUrl(base, ItemIconUrlAsIntended(base, item)) == Some((ItemIconsDir, ItemIconFile(item.name)))
  {
    var low := ToLower(item.name);
    forall k | 0 <= k < |low|
      ensures low[k] != '/'
    {
      assert item.name[k] != '/';
    }
    RemoveAllKeepsOut(low, ' ', '/');
    JpgPlain();
    ItemsDirPlain();
    IconUrlRoundTrip(base, ItemIconsDir, ItemIconFile(item.name));
  }

  /** Removing one character brings in no other. */
  lemma RemoveFirstKeepsOut(s: string, c: char, d: char)
    requires d !in s
    ensures d !in RemoveFirst(s, c)
  {
    match IndexOf(s, c)
    case None =>
    case Some(i) =>
      var r := RemoveAt(s, i);
      forall j | 0 <= j < |r|
        ensures r[j] != d
      {
        if j < i { assert r[j] == s[j]; } else { assert r[j] == s[j + 1]; }
      }
  }

  lemma ItemsDirPlain()
    ensures '/' !in ItemIconsDir
  {
  }

  lemma {:induction false} RemoveAllKeepsOut(s: string, c: char, d: char)
    requires d !in s
    ensures d !in RemoveAll(s, c)
    decreases |s|
  {
    if |s| > 0 {
      RemoveAllKeepsOut(s[1..], c, d);
    }
  }
}

/**
 * The locale cookie: `getLocaleFromCookie` reads the `lingo-locale` part of `document.cookie`,
 * and `saveLocaleToCookie` writes it as `lingo-locale=<locale>` followed by attributes.
 */
module LocaleContext {
  import opened Wrappers
  import opened JsString

  const LocaleCookieName: string := "lingo-locale"
  const DefaultLocale: string := "en"

  /** A part of `document.cookie` destructured as `[name, value]`: `value` is `None` (`undefined`) without `=`. */
  datatype CookiePart = CookiePart(name: string, value: Option<string>)

  /** `cookie.trim().split("=")` destructured into its first two pieces. */
  function ParsePart(cookie: string): CookiePart {
    var pieces := Split(Trim(cookie), '=');
    CookiePart(pieces[0], if |pieces| >= 2 then Some(pieces[1]) else None)
  }

  /** The first piece of a split on `=` has no `=` and starts the string; a second one follows that `=`. */
  lemma PiecesShape(t: string)
    ensures '=' !in Split(t, '=')[0] && StartsWith(t, Split(t, '=')[0])
    ensures |Split(t, '=')| >= 2 <==> '=' in t
    ensures '=' !in t ==> Split(t, '=')[0] == t
    ensures |Split(t, '=')| >= 2 ==>
      '=' !in Split(t, '=')[1] && StartsWith(t, Split(t, '=')[0] + "=" + Split(t, '=')[1])
  {
    SplitSingle(t, '=');
    if '=' in t {
      SplitFirstTwo(t, '=');
      var pieces := Split(t, '=');
      assert StartsWith(t, pieces[0]) by {
        assert (pieces[0] + [ '=' ] + pieces[1])[..|pieces[0]|] == pieces[0];
      }
    } else {
      SplitWithoutDelimiter(t, '=');
    }
  }

  /** The name of a part is everything up to its first `=`, and its value follows that `=` up to the next one. */
  lemma CookiePartShape(cookie: string)
    ensures '=' !in ParsePart(cookie).name && StartsWith(Trim(cookie), ParsePart(cookie).name)
    ensures ParsePart(cookie).value.None? <==> '=' !in Trim(cookie)
    ensures ParsePart(cookie).value.None? ==> ParsePart(cookie).name == Trim(cookie)
    ensures ParsePart(cookie).value.Some? ==>
      '=' !in ParsePart(cookie).value.value
      && StartsWith(Trim(cookie), ParsePart(cookie).name + "=" + ParsePart(cookie).value.value)
  {
    PiecesShape(Trim(cookie));
  }

  /** Every part of a cookie string, parsed. */
  function ParseParts(cookies: seq<string>): (parts: seq<CookiePart>)
    ensures |parts| == |cookies|
  {
    seq(|cookies|, i requires 0 <= i < |cookies| => ParsePart(cookies[i]))
  }

  /** The `for ... of` over the parts: the value of the first one called `name`, else English. */
  function ValueOfFirst(parts: seq<CookiePart>, name: string): Option<string>
    decreases |parts|
  {
    if parts == [] then Some(DefaultLocale)
    else if parts[0].name == name then parts[0].value
    else ValueOfFirst(parts[1..], name)
  }

  /**
   * The locale `getLocaleFromCookie` returns for `document`, `None` when there is no `document`
   * (server rendering). The value is returned as it stands: `None` for a part without `=`.
   */
  function LocaleFromCookie(document: Option<string>): Option<string> {
    match document
    case None => Some(DefaultLocale)
    case Some(cookie) => ValueOfFirst(ParseParts(Split(cookie, ';')), LocaleCookieName)
  }

  /** One turn of the `for ... of`: the part at `i` decides, or the search goes on after it. */
  lemma ValueOfFirstStep(parts: seq<CookiePart>, name: string, i: nat)
    requires i < |parts|
    ensures ValueOfFirst(parts[i..], name) ==
      if parts[i].name == name then parts[i].value else ValueOfFirst(parts[i + 1..], name)
  {
    var rest := parts[i..];
    assert rest[0] == parts[i];
    assert rest[1..] == parts[i + 1..];
  }

  /** `getLocaleFromCookie`: the parts in order, and the value of the first one named `lingo-locale`. */
  method GetLocaleFromCookie(document: Option<string>) returns (locale: Option<string>)
    ensures locale == LocaleFromCookie(document)
  {
    if document.None? {
      return Some(DefaultLocale);
    }
    var cookies := Split(document.value, ';');
    ghost var parts := ParseParts(cookies);
    var i := 0;
    while i < |cookies|
      invariant 0 <= i <= |cookies|
      invariant ValueOfFirst(parts[i..], LocaleCookieName) == ValueOfFirst(parts, LocaleCookieName)
    {
      ValueOfFirstStep(parts, LocaleCookieName, i);
      var part := ParsePart(cookies[i]);
      assert part == parts[i];
      if part.name == LocaleCookieName {
        return part.value;
      }
      i := i + 1;
    }
    assert parts[i..] == [];
    return Some(DefaultLocale);
  }

  /** The first part called `name` decides, whatever the later parts say. */
  lemma {:induction false} FirstMatchWinsAmong(parts: seq<CookiePart>, name: string, j: nat)
    requires j < |parts| && parts[j].name == name
    requires forall i :: 0 <= i < j ==> parts[i].name != name
    ensures ValueOfFirst(parts, name) == parts[j].value
    decreases j
  {
    if j > 0 {
      assert parts[0].name != name;
      assert forall i :: 0 <= i < j - 1 ==> parts[1..][i] == parts[i + 1];
      FirstMatchWinsAmong(parts[1..], name, j - 1);
    }
  }

  /** Without a part called `name` the search gives English. */
  lemma {:induction false} NoMatchAmong(parts: seq<CookiePart>, name: string)
    requires forall i :: 0 <= i < |parts| ==> parts[i].name != name
    ensures ValueOfFirst(parts, name) == Some(DefaultLocale)
    decreases |parts|
  {
    if parts != [] {
      assert parts[0].name != name;
      assert forall i :: 0 <= i < |parts| - 1 ==> parts[1..][i] == parts[i + 1];
      NoMatchAmong(parts[1..], name);
    }
  }

  /** The first part named `lingo-locale` decides, whatever the later parts say. */
  lemma FirstMatchWins(cookie: string, j: nat)
    requires j < |Split(cookie, ';')| && ParsePart(Split(cookie, ';')[j]).name == LocaleCookieName
    requires forall i :: 0 <= i < j ==> ParsePart(Split(cookie, ';')[i]).name != LocaleCookieName
    ensures LocaleFromCookie(Some(cookie)) == ParsePart(Split(cookie, ';')[j]).value
  {
    var parts := ParseParts(Split(cookie, ';'));
    assert forall i :: 0 <= i < j ==> parts[i] == ParsePart(Split(cookie, ';')[i]);
    FirstMatchWinsAmong(parts, LocaleCookieName, j);
  }

  /** Without a part named `lingo-locale` the locale is English. */
  lemma NoLocaleCookieIsEnglish(cookie: string)
    requires forall i :: 0 <= i < |Split(cookie, ';')| ==> ParsePart(Split(cookie, ';')[i]).name != LocaleCookieName
    ensures LocaleFromCookie(Some(cookie)) == Some(DefaultLocale)
  {
    var parts := ParseParts(Split(cookie, ';'));
    assert forall i :: 0 <= i < |parts| ==> parts[i] == ParsePart(Split(cookie, ';')[i]);
    NoMatchAmong(parts, LocaleCookieName);
  }

  /** The `name=value` pair that `saveLocaleToCookie` writes and `document.cookie` reads back. */
  function CookiePair(locale: string): string {
    LocaleCookieName + "=" + locale
  }

  /** A value a cookie can carry and `trim` leaves alone: no `;`, no `=`, no trailing blank. */
  predicate IsPlainValue(v: string) {
    ';' !in v && '=' !in v && (v == [] || !IsWhitespace(v[|v| - 1]))
  }

  /** A name a cookie part can carry and `trim` leaves alone. */
  predicate IsPlainName(name: string) {
    name != [] && ';' !in name && '=' !in name && !IsWhitespace(name[0])
  }

  lemma LocaleCookieNameIsPlain()
    ensures IsPlainName(LocaleCookieName)
  {
  }

  /** A `name=value` pair, trimmed and split on `=`, gives the name and the value. */
  lemma PairParts(name: string, v: string)
    requires IsPlainName(name) && IsPlainValue(v)
    ensures ';' !in name + "=" + v
    ensures Trim(name + "=" + v) == name + "=" + v
    ensures Split(name + "=" + v, '=') == [name, v]
  {
    var p := name + "=" + v;
    assert p[0] == name[0];
    assert p[|p| - 1] == if v == [] then '=' else v[|v| - 1];
    TrimUnchanged(p);
    assert p == name + ['='] + v;
    SplitAround(name, v, '=');
    SplitWithoutDelimiter(name, '=');
    SplitWithoutDelimiter(v, '=');
  }

  /** The pair, trimmed and split on `=`, gives the name and the value. */
  lemma CookiePairParts(v: string)
    requires IsPlainValue(v)
    ensures ';' !in CookiePair(v)
    ensures Trim(CookiePair(v)) == CookiePair(v)
    ensures ParsePart(CookiePair(v)) == CookiePart(LocaleCookieName, Some(v))
  {
    LocaleCookieNameIsPlain();
    PairParts(LocaleCookieName, v);
  }

  /** A saved locale is read back when its pair is the whole cookie. */
  lemma SavedLocaleReadBack(v: string)
    requires IsPlainValue(v)
    ensures LocaleFromCookie(Some(CookiePair(v))) == Some(v)
  {
    CookiePairParts(v);
    SplitWithoutDelimiter(CookiePair(v), ';');
  }

  /** A part appended after a `;` becomes the last piece of the split. */
  lemma AppendedPartSplit(others: string, part: string)
    requires ';' !in part
    ensures Split(others + [';'] + part, ';') == Split(others, ';') + [part]
  {
    SplitAround(others, part, ';');
    SplitWithoutDelimiter(part, ';');
  }

  /** The pair with the space the browser puts before it still parses to the saved locale. */
  lemma SpacedPairParts(v: string)
    requires IsPlainValue(v)
    ensures ';' !in [' '] + CookiePair(v)
    ensures ParsePart([' '] + CookiePair(v)) == CookiePart(LocaleCookieName, Some(v))
  {
    var pair := CookiePair(v);
    CookiePairParts(v);
    LeadingSpaceTrimmed(pair);
  }

  /** Parsing the parts of a split distributes over appending one more part. */
  lemma ParsePartsSnoc(cookies: seq<string>, part: string)
    ensures ParseParts(cookies + [part]) == ParseParts(cookies) + [ParsePart(part)]
  {
  }

  /** A part called `name` after parts called otherwise decides the search. */
  lemma {:induction false} LastMatchAfterNone(before: seq<CookiePart>, p: CookiePart, name: string)
    requires forall i :: 0 <= i < |before| ==> before[i].name != name
    requires p.name == name
    ensures ValueOfFirst(before + [p], name) == p.value
  {
    var parts := before + [p];
    assert forall i :: 0 <= i < |before| ==> parts[i] == before[i];
    FirstMatchWinsAmong(parts, name, |before|);
  }

  /** The cookie string the browser lists splits into the earlier cookies and the spaced pair. */
  lemma SavedCookieSplit(others: string, v: string)
    requires IsPlainValue(v)
    ensures Split(others + "; " + CookiePair(v), ';') == Split(others, ';') + [[' '] + CookiePair(v)]
  {
    var part := [' '] + CookiePair(v);
    LocaleCookieNameIsPlain();
    PairParts(LocaleCookieName, v);
    assert ';' !in part;
    assert others + "; " + CookiePair(v) == others + [';'] + part;
    AppendedPartSplit(others, part);
  }

  /** The cookie string the browser lists: the earlier cookies, `; `, then the saved pair. */
  lemma SavedCookieParts(others: string, v: string)
    requires IsPlainValue(v)
    ensures ParseParts(Split(others + "; " + CookiePair(v), ';'))
      == ParseParts(Split(others, ';')) + [CookiePart(LocaleCookieName, Some(v))]
  {
    var part := [' '] + CookiePair(v);
    SavedCookieSplit(others, v);
    SpacedPairParts(v);
    ParsePartsSnoc(Split(others, ';'), part);
  }

  /**
   * A saved locale is read back after other cookies, as the browser lists them (`; ` between
   * parts), when none of the earlier parts is named `lingo-locale`.
   */
  lemma SavedLocaleReadBackAfter(others: string, v: string)
    requires IsPlainValue(v)
    requires forall i :: 0 <= i < |Split(others, ';')| ==> ParsePart(Split(others, ';')[i]).name != LocaleCookieName
    ensures LocaleFromCookie(Some(others + "; " + CookiePair(v))) == Some(v)
  {
    var before := ParseParts(Split(others, ';'));
    assert forall i :: 0 <= i < |before| ==> before[i] == ParsePart(Split(others, ';')[i]);
    SavedCookieParts(others, v);
    LastMatchAfterNone(before, CookiePart(LocaleCookieName, Some(v)), LocaleCookieName);
  }

  /** `trim` drops the space the browser puts after a `;`. */
  lemma LeadingSpaceTrimmed(p: string)
    requires p != [] && !IsWhitespace(p[0]) && Trim(p) == p
    ensures Trim([' '] + p) == p
  {
    var q := [' '] + p;
    assert q[1..] == p;
    assert TrimStart(q) == TrimStart(p);
    assert TrimStart(p) == p;
  }

  /** Each of the three locales the switcher offers survives a save and a read. */
  lemma LocalesReadBack(locale: string)
    requires locale == "en" || locale == "ru" || locale == "pseudo"
    ensures LocaleFromCookie(Some(CookiePair(locale))) == Some(locale)
  {
    assert IsPlainValue(locale);
    SavedLocaleReadBack(locale);
  }

  /** A part named `lingo-locale` without `=` gives `undefined`: the value is not checked to be a locale. */
  lemma BareNameIsUndefined(cookie: string)
    requires ';' !in cookie && Trim(cookie) == LocaleCookieName
    ensures LocaleFromCookie(Some(cookie)) == None
  {
    LocaleCookieNameIsPlain();
    SplitWithoutDelimiter(cookie, ';');
    SplitWithoutDelimiter(Trim(cookie), '=');
    FirstMatchWins(cookie, 0);
  }

  /** Without a `document` the locale is English. */
  lemma NoDocumentIsEnglish()
    ensures LocaleFromCookie(None) == Some("en")
  {
  }
}

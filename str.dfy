/**
 * The pure string helpers of class `Str`: `slug`, `excerpt` and `sanitizeSlug`.
 * Characters are taken as ASCII: PCRE's `\w` is a letter, a digit or `_`, and
 * lower-casing maps `A`..`Z` to `a`..`z` and leaves every other character alone.
 */
module Str {
  import Php

  predicate IsUpper(c: char) { 'A' <= c <= 'Z' }

  predicate IsLower(c: char) { 'a' <= c <= 'z' }

  predicate IsAlphanumeric(c: char) { IsUpper(c) || IsLower(c) || Php.IsDigit(c) }

  /** PCRE's `\w`. */
  predicate IsWordChar(c: char) { IsAlphanumeric(c) || c == '_' }

  /** PCRE's `\s`. */
  predicate IsSpace(c: char) {
    c == ' ' || c == '\t' || c == '\n' || c == '\U{000B}' || c == '\U{000C}' || c == '\r'
  }

  /** The characters that PHP's `trim()` and `rtrim()` remove by default. */
  predicate IsTrimmable(c: char) {
    c == ' ' || c == '\t' || c == '\n' || c == '\r' || c == '\0' || c == '\U{000B}'
  }

  /** The characters a slug is made of: `[a-z0-9-]`. */
  predicate IsSlugChar(c: char) { IsLower(c) || Php.IsDigit(c) || c == '-' }

  /** The class `[\w\s-]` that the first replacement of `slug` keeps. */
  predicate IsSlugSource(c: char) { IsWordChar(c) || IsSpace(c) || c == '-' }

  /** The class `[\s_-]` whose runs the second replacement of `slug` turns into one hyphen. */
  predicate IsSeparator(c: char) { IsSpace(c) || c == '_' || c == '-' }

  /** The character classes that the helpers trim, keep or collapse. */
  datatype CharClass = Trimmable | Hyphen | Separator | SlugSource | SlugChar | Alphanumeric

  predicate In(c: char, cls: CharClass) {
    match cls
    case Trimmable => IsTrimmable(c)
    case Hyphen => c == '-'
    case Separator => IsSeparator(c)
    case SlugSource => IsSlugSource(c)
    case SlugChar => IsSlugChar(c)
    case Alphanumeric => IsAlphanumeric(c)
  }

  /** No two hyphens stand next to each other. */
  ghost predicate NoDoubleHyphen(s: string) {
    forall i, j :: 0 <= i < j < |s| && j == i + 1 ==> !(s[i] == '-' && s[j] == '-')
  }

  /** A well-formed slug: only `[a-z0-9-]`, no hyphen at either end, never two hyphens in a row. */
  ghost predicate IsSlug(s: string) {
    && (forall k :: 0 <= k < |s| ==> IsSlugChar(s[k]))
    && (s != [] ==> s[0] != '-' && s[|s| - 1] != '-')
    && NoDoubleHyphen(s)
  }

  function ToLower(c: char): (d: char)
    ensures !IsUpper(d)
    ensures IsAlphanumeric(c) <==> IsAlphanumeric(d)
    ensures !IsUpper(c) ==> d == c
  {
    if IsUpper(c) then (c as int + 32) as char else c
  }

  /** `strtolower` / `mb_strtolower` on ASCII text. */
  function Lower(s: string): (r: string)
    ensures |r| == |s|
    ensures forall k :: 0 <= k < |r| ==> r[k] == ToLower(s[k])
  {
    seq(|s|, k requires 0 <= k < |s| => ToLower(s[k]))
  }

  /** What is left of `s` after removing its longest prefix of characters in `cls`. */
  function DropWhile(s: string, cls: CharClass): (r: string)
    ensures |r| <= |s|
    ensures r == [] || !In(r[0], cls)
    ensures forall k :: 0 <= k < |s| - |r| ==> In(s[k], cls)
    ensures s == [] || !In(s[0], cls) ==> r == s
  {
    if s != [] && In(s[0], cls) then DropWhile(s[1..], cls) else s
  }

  /** What is left of `s` after removing its longest suffix of characters in `cls`. */
  function DropLastWhile(s: string, cls: CharClass): (r: string)
    ensures |r| <= |s|
    ensures r == [] || !In(r[|r| - 1], cls)
    ensures forall k :: |r| <= k < |s| ==> In(s[k], cls)
    ensures s == [] || !In(s[|s| - 1], cls) ==> r == s
  {
    if s != [] && In(s[|s| - 1], cls) then DropLastWhile(s[..|s| - 1], cls) else s
  }

  /** What `DropWhile` leaves is a suffix of its input. */
  lemma {:induction false} DropWhileIsSuffix(s: string, cls: CharClass)
    ensures DropWhile(s, cls) == s[|s| - |DropWhile(s, cls)|..]
    decreases |s|
  {
    if s != [] && In(s[0], cls) {
      DropWhileIsSuffix(s[1..], cls);
    }
  }

  /** What `DropLastWhile` leaves is a prefix of its input. */
  lemma {:induction false} DropLastWhileIsPrefix(s: string, cls: CharClass)
    ensures DropLastWhile(s, cls) == s[..|DropLastWhile(s, cls)|]
    decreases |s|
  {
    if s != [] && In(s[|s| - 1], cls) {
      DropLastWhileIsPrefix(s[..|s| - 1], cls);
    }
  }

  /** PHP's `trim($s, $chars)` where `cls` is the class `$chars`. */
  function Trim(s: string, cls: CharClass): string {
    DropLastWhile(DropWhile(s, cls), cls)
  }

  /** The characters of `s` in `cls`, in order: a `preg_replace` of the complement by ''. */
  function Keep(s: string, cls: CharClass): (r: string)
    ensures |r| <= |s|
    ensures forall k :: 0 <= k < |r| ==> In(r[k], cls)
  {
    if s == [] then [] else (if In(s[0], cls) then [s[0]] else []) + Keep(s[1..], cls)
  }

  /** The characters `CollapseSeparators` receives inside `Slug`: lower-case letters, digits, separators. */
  predicate IsCollapseInput(c: char) { IsLower(c) || Php.IsDigit(c) || IsSeparator(c) }

  /**
   * The second replacement of `slug`, `preg_replace('/[\s_-]+/', '-', ...)`:
   * each maximal run of separators becomes a single hyphen.
   */
  function CollapseSeparators(s: string): (r: string)
    ensures s == [] <==> r == []
    ensures s != [] ==> r[0] == if IsSeparator(s[0]) then '-' else s[0]
    decreases |s|
  {
    if s == [] then []
    else if IsSeparator(s[0]) then "-" + CollapseSeparators(DropWhile(s[1..], Separator))
    else [s[0]] + CollapseSeparators(s[1..])
  }

  /** Putting `c` in front of `t` makes no double hyphen unless both `c` and `t`'s head are hyphens. */
  lemma ConsNoDoubleHyphen(c: char, t: string)
    requires NoDoubleHyphen(t)
    requires c != '-' || t == [] || t[0] != '-'
    ensures NoDoubleHyphen([c] + t)
  {
    var s := [c] + t;
    forall i, j | 0 <= i < j < |s| && j == i + 1
      ensures !(s[i] == '-' && s[j] == '-')
    {
      if i > 0 {
        assert s[i] == t[i - 1] && s[j] == t[j - 1];
      }
    }
  }

  /** A run of separators becomes one hyphen, so no two hyphens stand together. */
  lemma {:induction false} CollapseNoDoubleHyphen(s: string)
    ensures NoDoubleHyphen(CollapseSeparators(s))
    decreases |s|
  {
    if s != [] {
      if IsSeparator(s[0]) {
        var d := DropWhile(s[1..], Separator);
        CollapseNoDoubleHyphen(d);
        ConsNoDoubleHyphen('-', CollapseSeparators(d));
      } else {
        CollapseNoDoubleHyphen(s[1..]);
        ConsNoDoubleHyphen(s[0], CollapseSeparators(s[1..]));
      }
    }
  }

  /** Collapsing lower-case letters, digits and separators leaves only slug characters. */
  lemma {:induction false} CollapseMakesSlugChars(s: string)
    requires forall k :: 0 <= k < |s| ==> IsCollapseInput(s[k])
    ensures forall k :: 0 <= k < |CollapseSeparators(s)| ==> IsSlugChar(CollapseSeparators(s)[k])
    decreases |s|
  {
    if s != [] {
      if IsSeparator(s[0]) {
        var d := DropWhile(s[1..], Separator);
        DropWhileIsSuffix(s[1..], Separator);
        assert forall k :: 0 <= k < |d| ==> d[k] == s[|s| - |d| + k];
        CollapseMakesSlugChars(d);
      } else {
        CollapseMakesSlugChars(s[1..]);
      }
    }
  }

  /**
   * `Str::slug`: trim, lower-case, drop everything outside `[\w\s-]`, turn runs
   * of `[\s_-]` into one hyphen, then trim hyphens from both ends.
   */
  function Slug(text: string): (r: string)
    ensures IsSlug(r)
  {
    var lowered := Lower(Trim(text, Trimmable));
    var kept := Keep(lowered, SlugSource);
    KeptLoweredIsCollapseInput(lowered);
    var collapsed := CollapseSeparators(kept);
    CollapseMakesSlugChars(kept);
    CollapseNoDoubleHyphen(kept);
    TrimmedHyphensMakeSlug(collapsed);
    Trim(collapsed, Hyphen)
  }

  lemma {:induction false} KeptLoweredIsCollapseInput(s: string)
    requires forall k :: 0 <= k < |s| ==> !IsUpper(s[k])
    ensures forall k :: 0 <= k < |Keep(s, SlugSource)| ==> IsCollapseInput(Keep(s, SlugSource)[k])
    decreases |s|
  {
    if s != [] {
      KeptLoweredIsCollapseInput(s[1..]);
    }
  }

  /** Trimming the hyphens off a run-collapsed string of slug characters leaves a slug. */
  lemma TrimmedHyphensMakeSlug(s: string)
    requires forall k :: 0 <= k < |s| ==> IsSlugChar(s[k])
    requires NoDoubleHyphen(s)
    ensures IsSlug(Trim(s, Hyphen))
  {
    var inner := DropWhile(s, Hyphen);
    var r := DropLastWhile(inner, Hyphen);
    var i := |s| - |inner|;
    forall k | 0 <= k < |r|
      ensures r[k] == s[i + k]
    {
      assert r[k] == inner[k];
    }
    if r != [] {
      assert r[0] == inner[0];
    }
  }

  // ---------------------------------------------------------------------
  // A slug is a fixed point of `Slug`, so `Slug` is idempotent.
  // ---------------------------------------------------------------------

  lemma {:induction false} KeepAll(s: string, cls: CharClass)
    requires forall k :: 0 <= k < |s| ==> In(s[k], cls)
    ensures Keep(s, cls) == s
    decreases |s|
  {
    if s != [] {
      KeepAll(s[1..], cls);
    }
  }

  /** Slug characters with no two hyphens in a row: what `CollapseSeparators` leaves alone. */
  ghost predicate IsCollapsed(s: string) {
    && (forall k :: 0 <= k < |s| ==> IsSlugChar(s[k]))
    && NoDoubleHyphen(s)
  }

  lemma CollapsedTail(s: string)
    requires IsCollapsed(s) && s != []
    ensures IsCollapsed(s[1..])
    ensures s[0] == '-' && |s| > 1 ==> !IsSeparator(s[1])
  {
    var t := s[1..];
    forall i, j | 0 <= i < j < |t| && j == i + 1
      ensures !(t[i] == '-' && t[j] == '-')
    {
      assert t[i] == s[i + 1] && t[j] == s[j + 1];
    }
  }

  lemma {:induction false} CollapseFixesSlugs(s: string)
    requires IsCollapsed(s)
    ensures CollapseSeparators(s) == s
    decreases |s|
  {
    if s != [] {
      var t := s[1..];
      CollapsedTail(s);
      CollapseFixesSlugs(t);
      assert s == [s[0]] + t;
      CollapseCons(s[0], t);
      if IsSeparator(s[0]) {
        assert s[0] == '-';
        assert t == [] || !In(t[0], Separator);
        assert DropWhile(t, Separator) == t;
      }
    }
  }

  /** A string that starts and ends outside `cls` is its own trim. */
  lemma TrimFixes(s: string, cls: CharClass)
    requires s == [] || (!In(s[0], cls) && !In(s[|s| - 1], cls))
    ensures Trim(s, cls) == s
  {
  }

  /** A string without upper-case letters is its own lower-case form. */
  lemma LowerFixes(s: string)
    requires forall k :: 0 <= k < |s| ==> !IsUpper(s[k])
    ensures Lower(s) == s
  {
  }

  /** `Slug` returns a slug unchanged. */
  lemma SlugFixesSlugs(s: string)
    requires IsSlug(s)
    ensures Slug(s) == s
  {
    assert IsCollapsed(s);
    TrimFixes(s, Trimmable);
    LowerFixes(s);
    KeepAll(s, SlugSource);
    CollapseFixesSlugs(s);
    TrimFixes(s, Hyphen);
    var lowered := Lower(Trim(s, Trimmable));
    assert lowered == s;
    assert CollapseSeparators(Keep(lowered, SlugSource)) == s;
  }

  /** `Str::slug` is idempotent. */
  lemma SlugIdempotent(text: string)
    ensures Slug(Slug(text)) == Slug(text)
  {
    SlugFixesSlugs(Slug(text));
  }

  // ---------------------------------------------------------------------
  // A slug keeps every letter and digit of its text, lower-cased and in order.
  // ---------------------------------------------------------------------

  lemma {:induction false} KeepConcat(a: string, b: string, cls: CharClass)
    ensures Keep(a + b, cls) == Keep(a, cls) + Keep(b, cls)
    decreases |a|
  {
    if a == [] {
      assert a + b == b;
    } else {
      assert a + b == [a[0]] + (a[1..] + b);
      assert a == [a[0]] + a[1..];
      KeepCons(a[0], a[1..] + b, cls);
      KeepCons(a[0], a[1..], cls);
      KeepConcat(a[1..], b, cls);
    }
  }

  /** The classes that hold no letter and no digit. */
  predicate NonAlphanumeric(cls: CharClass) {
    cls == Trimmable || cls == Hyphen || cls == Separator
  }

  /** The alphanumerics of the characters that `slug`'s first replacement keeps are all of them. */
  lemma {:induction false} KeepSlugSourceAlphanumerics(s: string)
    ensures Keep(Keep(s, SlugSource), Alphanumeric) == Keep(s, Alphanumeric)
    decreases |s|
  {
    if s != [] {
      KeepSlugSourceAlphanumerics(s[1..]);
      KeepConcat(if IsSlugSource(s[0]) then [s[0]] else [], Keep(s[1..], SlugSource), Alphanumeric);
    }
  }

  lemma {:induction false} KeepLower(s: string)
    ensures Keep(Lower(s), Alphanumeric) == Lower(Keep(s, Alphanumeric))
    decreases |s|
  {
    if s != [] {
      KeepLower(s[1..]);
      assert Lower(s)[1..] == Lower(s[1..]);
      var rest := Keep(s[1..], Alphanumeric);
      if IsAlphanumeric(s[0]) {
        assert Lower([s[0]] + rest) == [ToLower(s[0])] + Lower(rest);
      }
    }
  }

  /** Dropping a prefix of a class without letters or digits keeps the alphanumerics. */
  lemma {:induction false} KeepDropWhile(s: string, cls: CharClass)
    requires NonAlphanumeric(cls)
    ensures Keep(DropWhile(s, cls), Alphanumeric) == Keep(s, Alphanumeric)
    decreases |s|
  {
    if s != [] && In(s[0], cls) {
      KeepDropWhile(s[1..], cls);
      assert !IsAlphanumeric(s[0]);
      assert Keep(s, Alphanumeric) == Keep(s[1..], Alphanumeric);
    }
  }

  /** Dropping a suffix of a class without letters or digits keeps the alphanumerics. */
  lemma {:induction false} KeepDropLastWhile(s: string, cls: CharClass)
    requires NonAlphanumeric(cls)
    ensures Keep(DropLastWhile(s, cls), Alphanumeric) == Keep(s, Alphanumeric)
    decreases |s|
  {
    if s != [] && In(s[|s| - 1], cls) {
      var init := s[..|s| - 1];
      KeepDropLastWhile(init, cls);
      assert s == init + [s[|s| - 1]];
      KeepConcat(init, [s[|s| - 1]], Alphanumeric);
    }
  }

  /** Trimming characters that are not alphanumeric keeps the alphanumerics. */
  lemma KeepTrim(s: string, cls: CharClass)
    requires NonAlphanumeric(cls)
    ensures Keep(Trim(s, cls), Alphanumeric) == Keep(s, Alphanumeric)
  {
    KeepDropWhile(s, cls);
    KeepDropLastWhile(DropWhile(s, cls), cls);
  }

  lemma {:induction false} KeepCollapse(s: string)
    ensures Keep(CollapseSeparators(s), Alphanumeric) == Keep(s, Alphanumeric)
    decreases |s|
  {
    if s != [] {
      if IsSeparator(s[0]) {
        var d := DropWhile(s[1..], Separator);
        var tail := CollapseSeparators(d);
        KeepCollapse(d);
        KeepDropWhile(s[1..], Separator);
        assert ("-" + tail)[0] == '-' && ("-" + tail)[1..] == tail;
      } else {
        var tail := CollapseSeparators(s[1..]);
        KeepCollapse(s[1..]);
        assert ([s[0]] + tail)[0] == s[0] && ([s[0]] + tail)[1..] == tail;
      }
    }
  }

  /**
   * The letters and digits of a slug are exactly those of its text, lower-cased
   * and in their original order: `Slug` only drops or replaces the other characters.
   */
  lemma SlugKeepsAlphanumerics(text: string)
    ensures Keep(Slug(text), Alphanumeric) == Lower(Keep(text, Alphanumeric))
  {
    var trimmed := Trim(text, Trimmable);
    var lowered := Lower(trimmed);
    var kept := Keep(lowered, SlugSource);
    var collapsed := CollapseSeparators(kept);
    KeepTrim(collapsed, Hyphen);
    KeepCollapse(kept);
    KeepSlugSourceAlphanumerics(lowered);
    KeepLower(trimmed);
    KeepTrim(text, Trimmable);
  }

  /** The first replacement of `slug` keeps the kept characters of both sides of a dropped one. */
  lemma KeepSkipsDropped(a: string, c: char, b: string)
    requires !IsSlugSource(c)
    ensures Keep(Lower(a + [c] + b), SlugSource) == Keep(Lower(a + b), SlugSource)
  {
    LowerConcat(a + [c], b);
    LowerConcat(a, [c]);
    LowerConcat(a, b);
    assert Lower([c]) == [c];
    KeepConcat(Lower(a) + [c], Lower(b), SlugSource);
    KeepConcat(Lower(a), [c], SlugSource);
    KeepConcat(Lower(a), Lower(b), SlugSource);
    KeepDrops(c, [], SlugSource);
  }

  /**
   * A character outside `[\w\s-]` inside the text is deleted, not turned into a
   * hyphen: the slug is the one of the text without it.
   */
  lemma SlugDropsInnerPunctuation(a: string, c: char, b: string)
    requires a != [] && !IsTrimmable(a[0])
    requires b != [] && !IsTrimmable(b[|b| - 1])
    requires !IsSlugSource(c)
    ensures Slug(a + [c] + b) == Slug(a + b)
  {
    var s, t := a + [c] + b, a + b;
    assert s[0] == a[0] && s[|s| - 1] == b[|b| - 1];
    assert t[0] == a[0] && t[|t| - 1] == b[|b| - 1];
    TrimFixes(s, Trimmable);
    TrimFixes(t, Trimmable);
    KeepSkipsDropped(a, c, b);
  }

  lemma ItSJoined()
    ensures "it" + ['\''] + "s" == "it's" && "it" + "s" == "its"
  {
  }

  lemma SlugOfIts()
    ensures Slug("its") == "its"
  {
    SlugFixesSlugs("its");
  }

  /** The apostrophe of "it's" goes: its slug is "its". */
  lemma SlugOfItS()
    ensures Slug("it's") == "its"
  {
    SlugDropsInnerPunctuation("it", '\'', "s");
    ItSJoined();
    SlugOfIts();
  }

  // ---------------------------------------------------------------------
  // A run of separators between two slugs becomes exactly one hyphen.
  // ---------------------------------------------------------------------

  /** Characters that are all separators. */
  ghost predicate AllSeparators(s: string) {
    forall k :: 0 <= k < |s| ==> IsSeparator(s[k])
  }

  /** A slug character that is a separator is a hyphen. */
  lemma SlugCharSeparator(c: char)
    requires IsSlugChar(c) && IsSeparator(c)
    ensures c == '-'
  {
  }

  /** Dropping the separators in front of text that starts with none drops exactly the run. */
  lemma {:induction false} DropSeparatorRun(sep: string, t: string)
    requires AllSeparators(sep)
    requires t == [] || !IsSeparator(t[0])
    ensures DropWhile(sep + t, Separator) == t
    decreases |sep|
  {
    if sep == [] {
      assert sep + t == t;
    } else {
      assert (sep + t)[0] == sep[0];
      assert (sep + t)[1..] == sep[1..] + t;
      DropSeparatorRun(sep[1..], t);
    }
  }

  /** A non-empty run of separators in front of text that starts with none becomes one hyphen. */
  lemma CollapseSeparatorRun(sep: string, t: string)
    requires sep != [] && AllSeparators(sep)
    requires t == [] || !IsSeparator(t[0])
    ensures CollapseSeparators(sep + t) == "-" + CollapseSeparators(t)
  {
    assert sep + t == [sep[0]] + (sep[1..] + t);
    CollapseCons(sep[0], sep[1..] + t);
    DropSeparatorRun(sep[1..], t);
  }

  /** Collapsing leaves a collapsed prefix that does not end in a hyphen as it is. */
  lemma {:induction false} CollapsePrefix(a: string, t: string)
    requires IsCollapsed(a)
    requires a == [] || a[|a| - 1] != '-'
    ensures CollapseSeparators(a + t) == a + CollapseSeparators(t)
    decreases |a|
  {
    if a == [] {
      assert a + t == t;
    } else {
      var a' := a[1..];
      CollapsedTail(a);
      assert a + t == [a[0]] + (a' + t);
      CollapseCons(a[0], a' + t);
      CollapsePrefix(a', t);
      if IsSeparator(a[0]) {
        SlugCharSeparator(a[0]);
        assert a' != [] && a'[0] == (a' + t)[0];
        assert !In((a' + t)[0], Separator);
        assert DropWhile(a' + t, Separator) == a' + t;
      }
      assert a == [a[0]] + a';
    }
  }

  /** `Collapse(a + sep + b)` for slugs `a` and `b` joined by a separator run. */
  lemma CollapseJoin(a: string, sep: string, b: string)
    requires IsSlug(a) && IsSlug(b) && a != [] && b != []
    requires sep != [] && AllSeparators(sep)
    ensures CollapseSeparators(a + sep + b) == a + "-" + b
  {
    assert IsCollapsed(a) && IsCollapsed(b);
    assert a + sep + b == a + (sep + b);
    CollapsePrefix(a, sep + b);
    assert !IsSeparator(b[0]) by {
      if IsSeparator(b[0]) {
        SlugCharSeparator(b[0]);
      }
    }
    CollapseSeparatorRun(sep, b);
    CollapseFixesSlugs(b);
  }

  /**
   * Two slugs joined by any non-empty run of blanks, underscores and hyphens
   * make the slug of both with a single hyphen between them.
   */
  lemma SlugJoinsAtSeparatorRun(a: string, sep: string, b: string)
    requires IsSlug(a) && IsSlug(b) && a != [] && b != []
    requires sep != [] && AllSeparators(sep)
    ensures Slug(a + sep + b) == a + "-" + b
  {
    var s := a + sep + b;
    assert s[0] == a[0] && s[|s| - 1] == b[|b| - 1];
    TrimFixes(s, Trimmable);
    forall k | 0 <= k < |s|
      ensures !IsUpper(s[k]) && IsSlugSource(s[k])
    {
      if k < |a| {
        assert s[k] == a[k];
      } else if k < |a| + |sep| {
        assert s[k] == sep[k - |a|];
      } else {
        assert s[k] == b[k - |a| - |sep|];
      }
    }
    LowerFixes(s);
    KeepAll(s, SlugSource);
    CollapseJoin(a, sep, b);
    var j := a + "-" + b;
    assert j[0] == a[0] && j[|j| - 1] == b[|b| - 1];
    TrimFixes(j, Hyphen);
  }

  lemma KeepCons(c: char, s: string, cls: CharClass)
    ensures Keep([c] + s, cls) == (if In(c, cls) then [c] else []) + Keep(s, cls)
  {
    assert ([c] + s)[1..] == s;
  }

  lemma CollapseCons(c: char, s: string)
    ensures CollapseSeparators([c] + s) ==
      if IsSeparator(c) then "-" + CollapseSeparators(DropWhile(s, Separator))
      else [c] + CollapseSeparators(s)
  {
    assert ([c] + s)[1..] == s;
  }

  // The example of a title made of two words, "X, y" with blanks around it,
  // taken one stage of the pipeline at a time.

  lemma ExampleTrim(x: char, y: char)
    requires IsAlphanumeric(x) && IsAlphanumeric(y)
    ensures Trim([' ', x, ',', ' ', y, ' '], Trimmable) == [x, ',', ' ', y]
  {
    var s := [' ', x, ',', ' ', y, ' '];
    var d := [x, ',', ' ', y, ' '];
    var e := [x, ',', ' ', y];
    assert In(s[0], Trimmable) && s[1..] == d;
    assert !In(d[0], Trimmable);
    assert DropWhile(s, Trimmable) == d;
    assert In(d[4], Trimmable) && d[..4] == e;
    assert !In(e[3], Trimmable);
    assert DropLastWhile(d, Trimmable) == e;
  }

  lemma ExampleLower(x: char, y: char)
    ensures Lower([x, ',', ' ', y]) == [ToLower(x), ',', ' ', ToLower(y)]
  {
    var s := [x, ',', ' ', y];
    assert Lower(s)[1] == ToLower(s[1]) == ',';
    assert Lower(s)[2] == ToLower(s[2]) == ' ';
  }

  lemma ExampleKeepTail(y: char)
    requires IsAlphanumeric(y)
    ensures Keep([',', ' ', y], SlugSource) == [' ', y]
  {
    assert In(y, SlugSource) && In(' ', SlugSource) && !In(',', SlugSource);
    KeepCons(y, [], SlugSource);
    KeepCons(' ', [y], SlugSource);
    KeepCons(',', [' ', y], SlugSource);
  }

  lemma ExampleKeep(x: char, y: char)
    requires IsAlphanumeric(x) && IsAlphanumeric(y)
    ensures Keep([x, ',', ' ', y], SlugSource) == [x, ' ', y]
  {
    ExampleKeepTail(y);
    assert In(x, SlugSource);
    KeepCons(x, [',', ' ', y], SlugSource);
  }

  lemma ExampleCollapseLast(y: char)
    requires !IsSeparator(y)
    ensures CollapseSeparators([y]) == [y]
  {
    CollapseCons(y, []);
  }

  lemma ExampleCollapseSpace(y: char)
    requires !IsSeparator(y)
    ensures CollapseSeparators([' ', y]) == "-" + CollapseSeparators(DropWhile([y], Separator))
    ensures DropWhile([y], Separator) == [y]
  {
    CollapseCons(' ', [y]);
    assert !In(y, Separator);
  }

  lemma ExampleCollapseTail(y: char)
    requires !IsSeparator(y)
    ensures CollapseSeparators([' ', y]) == ['-', y]
  {
    ExampleCollapseLast(y);
    ExampleCollapseSpace(y);
    ExamplePrefixHyphen(y);
  }

  lemma ExamplePrefixHyphen(y: char)
    ensures "-" + [y] == ['-', y]
  {
  }

  lemma ExampleCollapseFirst(x: char, t: string, r: string)
    requires !IsSeparator(x) && CollapseSeparators(t) == r
    ensures CollapseSeparators([x] + t) == [x] + r
  {
    CollapseCons(x, t);
  }

  lemma ExampleCollapse(x: char, y: char)
    requires !IsSeparator(x) && !IsSeparator(y)
    ensures CollapseSeparators([x, ' ', y]) == [x, '-', y]
  {
    ExampleCollapseTail(y);
    ExampleCollapseFirst(x, [' ', y], ['-', y]);
    assert [x] + [' ', y] == [x, ' ', y];
    assert [x] + ['-', y] == [x, '-', y];
  }

  /**
   * The slug of " X, y " for any letters or digits X and y: the blanks are trimmed,
   * the letters lower-cased, the comma dropped and the space turned into a hyphen.
   */
  lemma SlugOfExampleTitle(x: char, y: char)
    requires IsAlphanumeric(x) && IsAlphanumeric(y)
    ensures Slug([' ', x, ',', ' ', y, ' ']) == [ToLower(x), '-', ToLower(y)]
  {
    var lx, ly := ToLower(x), ToLower(y);
    ExampleTrim(x, y);
    ExampleLower(x, y);
    ExampleKeep(lx, ly);
    ExampleCollapse(lx, ly);
    TrimFixes([lx, '-', ly], Hyphen);
  }

  /** Keeping a piece that is all in `cls` in front of the rest keeps the piece. */
  lemma KeepWhole(p: string, t: string, cls: CharClass)
    requires forall k :: 0 <= k < |p| ==> In(p[k], cls)
    ensures Keep(p + t, cls) == p + Keep(t, cls)
  {
    KeepAll(p, cls);
    KeepConcat(p, t, cls);
  }

  /** Keeping drops a character outside `cls`. */
  lemma KeepDrops(c: char, t: string, cls: CharClass)
    requires !In(c, cls)
    ensures Keep([c] + t, cls) == Keep(t, cls)
  {
    KeepCons(c, t, cls);
  }

  // The title "Hello, World! 2024", one stage of the pipeline at a time.

  lemma HelloWorldLower()
    ensures Lower("Hello, World! 2024") == "hello" + ("," + (" world" + ("!" + " 2024")))
  {
    var s := "Hello, World! 2024";
    assert Lower(s)[0] == ToLower('H') == 'h';
    assert Lower(s)[7] == ToLower('W') == 'w';
  }

  lemma HelloWorldKeepTail()
    ensures Keep(" world" + ("!" + " 2024"), SlugSource) == " world" + " 2024"
  {
    KeepWhole(" world", "!" + " 2024", SlugSource);
    KeepDrops('!', " 2024", SlugSource);
    KeepAll(" 2024", SlugSource);
  }

  lemma HelloWorldKeep()
    ensures Keep("hello" + ("," + (" world" + ("!" + " 2024"))), SlugSource) == "hello" + (" world" + " 2024")
  {
    KeepWhole("hello", "," + (" world" + ("!" + " 2024")), SlugSource);
    KeepDrops(',', " world" + ("!" + " 2024"), SlugSource);
    HelloWorldKeepTail();
  }

  lemma HelloWorldCollapseTail()
    ensures CollapseSeparators(" " + ("world" + (" " + "2024"))) == "-" + ("world" + ("-" + "2024"))
  {
    assert IsSlug("world") && IsSlug("2024");
    CollapseSeparatorRun(" ", "world" + (" " + "2024"));
    CollapsePrefix("world", " " + "2024");
    CollapseSeparatorRun(" ", "2024");
    CollapseFixesSlugs("2024");
  }

  lemma HelloWorldCollapse()
    ensures CollapseSeparators("hello" + (" world" + " 2024")) == "hello" + ("-" + ("world" + ("-" + "2024")))
  {
    assert IsSlug("hello");
    CollapsePrefix("hello", " world" + " 2024");
    assert " world" + " 2024" == " " + ("world" + (" " + "2024"));
    HelloWorldCollapseTail();
  }

  lemma HelloWorldJoined()
    ensures "hello" + ("-" + ("world" + ("-" + "2024"))) == "hello-world-2024"
  {
  }

  /**
   * The slug of "Hello, World! 2024": lower-cased, the comma and the
   * exclamation mark dropped, each space turned into a hyphen.
   */
  lemma SlugOfHelloWorld()
    ensures Slug("Hello, World! 2024") == "hello-world-2024"
  {
    var text := "Hello, World! 2024";
    TrimFixes(text, Trimmable);
    HelloWorldLower();
    HelloWorldKeep();
    HelloWorldCollapse();
    HelloWorldJoined();
    TrimFixes("hello-world-2024", Hyphen);
  }

  // ---------------------------------------------------------------------
  // Excerpt and sanitizeSlug
  // ---------------------------------------------------------------------

  /** The default excerpt length of `Str::excerpt`. */
  const ExcerptLength: nat := 180

  /** The character `…` that marks a cut excerpt. */
  const Ellipsis: char := '\U{2026}'

  /**
   * `Str::excerpt` of text whose tags are already stripped: text no longer than
   * `length` comes back whole; longer text is cut after `length` characters, the
   * cut is right-trimmed, and `…` is appended.
   */
  function Excerpt(text: string, length: nat): (r: string)
    ensures |text| <= length ==> r == text
    ensures |text| > length ==>
      && |r| >= 1 && r[|r| - 1] == Ellipsis
      && |r| - 1 <= length
      && r[..|r| - 1] == text[..|r| - 1]
      && (forall k :: |r| - 1 <= k < length ==> IsTrimmable(text[k]))
      && (|r| == 1 || !IsTrimmable(r[|r| - 2]))
  {
    if |text| <= length then text
    else
      var cut := DropLastWhile(text[..length], Trimmable);
      DropLastWhileIsPrefix(text[..length], Trimmable);
      assert cut == text[..|cut|];
      cut + [Ellipsis]
  }

  /** `Str::sanitizeSlug`: lower-case, then drop everything outside `[a-z0-9-]`. */
  function SanitizeSlug(slug: string): (r: string)
    ensures forall k :: 0 <= k < |r| ==> IsSlugChar(r[k])
    ensures |r| <= |slug|
  {
    Keep(Lower(slug), SlugChar)
  }

  /** Sanitizing leaves every character of `[a-z0-9-]` alone. */
  lemma SanitizeSlugFixesSlugChars(s: string)
    requires forall k :: 0 <= k < |s| ==> IsSlugChar(s[k])
    ensures SanitizeSlug(s) == s
  {
    assert Lower(s) == s;
    KeepAll(s, SlugChar);
  }

  /** `Str::sanitizeSlug` is idempotent and leaves the output of `Str::slug` alone. */
  lemma SanitizeSlugIdempotent(s: string)
    ensures SanitizeSlug(SanitizeSlug(s)) == SanitizeSlug(s)
    ensures SanitizeSlug(Slug(s)) == Slug(s)
  {
    SanitizeSlugFixesSlugChars(SanitizeSlug(s));
    SanitizeSlugFixesSlugChars(Slug(s));
  }

  /** Lower-casing works character by character. */
  lemma LowerConcat(a: string, b: string)
    ensures Lower(a + b) == Lower(a) + Lower(b)
  {
    var l, r := Lower(a + b), Lower(a) + Lower(b);
    forall k | 0 <= k < |l|
      ensures l[k] == r[k]
    {
      if k < |a| {
        assert (a + b)[k] == a[k];
      } else {
        assert (a + b)[k] == b[k - |a|];
      }
    }
  }

  /** Sanitizing works character by character: the text splits anywhere. */
  lemma SanitizeSlugConcat(a: string, b: string)
    ensures SanitizeSlug(a + b) == SanitizeSlug(a) + SanitizeSlug(b)
  {
    LowerConcat(a, b);
    KeepConcat(Lower(a), Lower(b), SlugChar);
  }

  /** One character is lower-cased, then kept exactly when it is in `[a-z0-9-]`. */
  lemma SanitizeSlugOfChar(c: char)
    ensures SanitizeSlug([c]) == if IsSlugChar(ToLower(c)) then [ToLower(c)] else []
  {
    assert Lower([c]) == [ToLower(c)];
    KeepCons(ToLower(c), [], SlugChar);
  }
}

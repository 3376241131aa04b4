/** Rendering of the package recipe from its template: four placeholder
    tokens are substituted, one `str.replace` after another, in the fixed
    order version, url, sha256, icon_sha256. */
module Template {
  import opened Text
  import opened Replace

  /** The spelling of a placeholder token: the name between double braces. */
  function Placeholder(name: string): string {
    "{{" + name + "}}"
  }

  /** A placeholder name or value that cannot take part in forming a token. */
  predicate BraceFree(s: string) {
    '{' !in s && '}' !in s
  }

  const VersionToken := Placeholder("version")
  const UrlToken := Placeholder("url")
  const ShaToken := Placeholder("sha256")
  const IconShaToken := Placeholder("icon_sha256")

  /** The replacement chain of the renderer, on the template's text. */
  function Render(template: string, version: string, url: string, sha256: string, iconSha256: string): string {
    var withVersion := ReplaceAll(template, VersionToken, version);
    var withUrl := ReplaceAll(withVersion, UrlToken, url);
    var withSha := ReplaceAll(withUrl, ShaToken, sha256);
    ReplaceAll(withSha, IconShaToken, iconSha256)
  }

  /** The four names can be told apart and hold no brace. */
  lemma TokenNames()
    ensures BraceFree("version") && BraceFree("url") && BraceFree("sha256") && BraceFree("icon_sha256")
    ensures "version" != "url" && "version" != "sha256" && "version" != "icon_sha256"
    ensures "url" != "sha256" && "url" != "icon_sha256" && "sha256" != "icon_sha256"
  {
    assert "version"[0] != "url"[0] && "version"[0] != "sha256"[0] && "version"[0] != "icon_sha256"[0];
    assert "url"[0] != "sha256"[0] && "url"[0] != "icon_sha256"[0] && "sha256"[0] != "icon_sha256"[0];
  }

  /** Past its two opening braces a placeholder holds no `{`. */
  lemma PlaceholderBody(n: string)
    requires BraceFree(n)
    ensures Placeholder(n)[0] == '{' && Placeholder(n)[1] == '{'
    ensures forall j :: 2 <= j < |Placeholder(n)| ==> Placeholder(n)[j] != '{'
  {
    var q := Placeholder(n);
    forall j | 2 <= j < |q|
      ensures q[j] != '{'
    {
      assert q[2..] == n + "}}";
      assert q[j] == q[2..][j - 2];
    }
  }

  /** One placeholder never occurs inside a different one. */
  lemma PlaceholderNotInOther(m: string, n: string)
    requires BraceFree(m) && BraceFree(n) && m != n
    ensures !Occurs(Placeholder(m), Placeholder(n))
  {
    var p, q := Placeholder(m), Placeholder(n);
    PlaceholderBody(n);
    forall i: nat
      ensures !StartsAt(q, i, p)
    {
      if i + |p| <= |q| {
        var x := q[i..i + |p|];
        if i == 0 {
          if |m| == |n| {
            var j :| 0 <= j < |m| && m[j] != n[j];
            assert x[2 + j] == n[j];
            assert p[2 + j] == m[j];
          } else {
            assert n[|m|] in n;
            assert x[2 + |m|] == n[|m|];
            assert p[2 + |m|] == '}';
          }
        } else {
          assert x[1] == q[i + 1];
          assert p[1] == '{';
        }
      }
    }
  }

  /** No proper suffix of a placeholder starts another placeholder. */
  lemma PlaceholderSuffixNotPrefix(m: string, n: string)
    requires BraceFree(m) && BraceFree(n)
    ensures forall k :: 0 < k < |Placeholder(m)| ==> !(Placeholder(m)[k..] <= Placeholder(n))
  {
    var p, q := Placeholder(m), Placeholder(n);
    PlaceholderBody(m);
    forall k | 0 < k < |p|
      ensures !(p[k..] <= q)
    {
      if k == 1 {
        assert p[k..][1] == p[2] != '{' == q[1];
      } else {
        assert p[k..][0] == p[k] != '{' == q[0];
      }
    }
  }

  /** Two distinct placeholders cannot overlap anywhere in a text. */
  lemma PlaceholdersIsolated(m: string, n: string)
    requires BraceFree(m) && BraceFree(n) && m != n
    ensures Isolated(Placeholder(m), Placeholder(n))
  {
    PlaceholderNotInOther(m, n);
    PlaceholderNotInOther(n, m);
    PlaceholderSuffixNotPrefix(m, n);
    PlaceholderSuffixNotPrefix(n, m);
  }

  /** The third replacement cannot destroy the fourth placeholder: every
      `{{icon_sha256}}` survives the substitution of `{{sha256}}`, whatever
      text surrounds it. */
  lemma ShaReplacementKeepsIconToken(a: string, b: string, sha256: string)
    ensures ReplaceAll(a + IconShaToken + b, ShaToken, sha256)
         == ReplaceAll(a, ShaToken, sha256) + IconShaToken + ReplaceAll(b, ShaToken, sha256)
  {
    TokenNames();
    PlaceholdersIsolated("sha256", "icon_sha256");
    ReplaceAllAroundIsolated(a, IconShaToken, b, ShaToken, sha256);
  }

  /** Text that cannot begin a placeholder: it holds no `{{` and does not end
      in a `{` that a following `{` could pair with. Shell text such as
      `${pkgdir}`, or `package() {` followed by a line break, qualifies. */
  predicate PlainText(x: string) {
    && (forall i :: 0 <= i < |x| - 1 ==> !(x[i] == '{' && x[i + 1] == '{'))
    && (|x| == 0 || x[|x| - 1] != '{')
  }

  /** Text without any `{` is plain. */
  lemma NoBracePlain(x: string)
    requires '{' !in x
    ensures PlainText(x)
  {
  }

  /** Plain text followed by plain text is plain: the first part does not end
      in `{`, so no `{{` forms at the seam. */
  lemma PlainConcat(a: string, b: string)
    requires PlainText(a) && PlainText(b)
    ensures PlainText(a + b)
  {
    var c := a + b;
    forall i | 0 <= i < |c| - 1
      ensures !(c[i] == '{' && c[i + 1] == '{')
    {
      if i + 1 < |a| {
        assert c[i] == a[i] && c[i + 1] == a[i + 1];
      } else if i + 1 == |a| {
        assert c[i] == a[|a| - 1];
      } else {
        assert c[i] == b[i - |a|] && c[i + 1] == b[i - |a| + 1];
      }
    }
    if |b| > 0 {
      assert c[|c| - 1] == b[|b| - 1];
    } else {
      assert c == a;
    }
  }

  /** Plain text holds no placeholder of any name. */
  lemma PlainNoPlaceholder(s: string, n: string)
    requires PlainText(s)
    ensures !Occurs(Placeholder(n), s)
  {
    var p := Placeholder(n);
    assert p[0] == '{' && p[1] == '{';
    forall i: nat
      ensures !StartsAt(s, i, p)
    {
      if i + |p| <= |s| {
        assert s[i..i + |p|][0] == s[i];
        assert s[i..i + |p|][1] == s[i + 1];
      }
    }
  }

  /** Plain text at the front is passed over by the replacement of any
      placeholder, and the scan goes on right after it. */
  lemma PlainPrefix(x: string, rest: string, n: string, rep: string)
    requires PlainText(x)
    ensures ReplaceAll(x + rest, Placeholder(n), rep) == x + ReplaceAll(rest, Placeholder(n), rep)
  {
    var p := Placeholder(n);
    var c := x + rest;
    assert p[0] == '{' && p[1] == '{';
    forall i: nat | i < |x| < i + |p|
      ensures !StartsAt(c, i, p)
    {
      if i + |p| <= |c| {
        assert c[i..i + |p|][0] == c[i] == x[i];
        assert c[i..i + |p|][1] == c[i + 1];
        if i + 1 < |x| {
          assert c[i + 1] == x[i + 1];
        }
      }
    }
    ReplaceAllSplit(x, rest, p, rep);
    PlainNoPlaceholder(x, n);
    ReplaceAllAbsent(x, p, rep);
  }

  /** A template with none of the four tokens renders to itself. */
  lemma RenderWithoutPlaceholders(template: string, version: string, url: string, sha256: string, iconSha256: string)
    requires !Occurs(VersionToken, template) && !Occurs(UrlToken, template)
    requires !Occurs(ShaToken, template) && !Occurs(IconShaToken, template)
    ensures Render(template, version, url, sha256, iconSha256) == template
  {
    ReplaceAllAbsent(template, VersionToken, version);
    ReplaceAllAbsent(template, UrlToken, url);
    ReplaceAllAbsent(template, ShaToken, sha256);
    ReplaceAllAbsent(template, IconShaToken, iconSha256);
  }

  /** A template seen as literal text interleaved with placeholders. */
  datatype Piece = Literal(text: string) | Slot(name: string)

  function Expand(p: Piece): string {
    match p
    case Literal(x) => x
    case Slot(n) => Placeholder(n)
  }

  function Flatten(t: seq<Piece>): string {
    if |t| == 0 then [] else Expand(t[0]) + Flatten(t[1..])
  }

  /** Literal text is plain and slot names hold no brace, so every token in
      the flattened text is one of the slots. */
  predicate CleanPiece(p: Piece) {
    match p
    case Literal(x) => PlainText(x)
    case Slot(n) => BraceFree(n)
  }

  predicate WellFormed(t: seq<Piece>) {
    forall k :: 0 <= k < |t| ==> CleanPiece(t[k])
  }

  function FillPiece(p: Piece, name: string, value: string): Piece {
    if p == Slot(name) then Literal(value) else p
  }

  /** The intended meaning of one substitution step: each slot of that name
      becomes literal text. */
  function Fill(t: seq<Piece>, name: string, value: string): (r: seq<Piece>)
    ensures |r| == |t|
    ensures forall k :: 0 <= k < |t| ==> r[k] == FillPiece(t[k], name, value)
  {
    if |t| == 0 then [] else [FillPiece(t[0], name, value)] + Fill(t[1..], name, value)
  }

  function FillAll(t: seq<Piece>, version: string, url: string, sha256: string, iconSha256: string): seq<Piece> {
    Fill(Fill(Fill(Fill(t, "version", version), "url", url), "sha256", sha256), "icon_sha256", iconSha256)
  }

  /** Filling a slot with plain text keeps the template well formed. */
  lemma FillKeepsWellFormed(t: seq<Piece>, name: string, value: string)
    requires WellFormed(t) && PlainText(value)
    ensures WellFormed(Fill(t, name, value))
  {
  }

  /** On a well-formed template one `str.replace` of a placeholder is exactly
      the filling of its slots: the value lands where the slots were and
      everything else is kept. */
  lemma {:induction false} ReplaceFillsSlots(t: seq<Piece>, name: string, value: string)
    requires WellFormed(t) && BraceFree(name)
    ensures ReplaceAll(Flatten(t), Placeholder(name), value) == Flatten(Fill(t, name, value))
    decreases |t|
  {
    if |t| > 0 {
      var p := Placeholder(name);
      var rest := Flatten(t[1..]);
      assert WellFormed(t[1..]) by {
        forall k | 0 <= k < |t[1..]|
          ensures CleanPiece(t[1..][k])
        {
          assert t[1..][k] == t[k + 1];
        }
      }
      ReplaceFillsSlots(t[1..], name, value);
      ReplacePiece(t[0], rest, name, value);
    }
  }

  /** One piece of a well-formed template under one replacement step. */
  lemma ReplacePiece(q: Piece, rest: string, name: string, value: string)
    requires CleanPiece(q) && BraceFree(name)
    ensures ReplaceAll(Expand(q) + rest, Placeholder(name), value)
         == Expand(FillPiece(q, name, value)) + ReplaceAll(rest, Placeholder(name), value)
  {
    match q
    case Literal(x) =>
      PlainPrefix(x, rest, name, value);
    case Slot(n) =>
      if n == name {
        ReplaceAllOwnToken(n, rest, value);
      } else {
        ReplaceAllOtherToken(n, rest, name, value);
      }
  }

  /** Rendering a well-formed template fills every slot of each of the four
      names with its value and leaves all other text as it was, provided the
      first three values are plain text, so that they form no token for a
      later step to act on. */
  lemma RenderFillsPlaceholders(t: seq<Piece>, version: string, url: string, sha256: string, iconSha256: string)
    requires WellFormed(t)
    requires PlainText(version) && PlainText(url) && PlainText(sha256)
    ensures Render(Flatten(t), version, url, sha256, iconSha256) == Flatten(FillAll(t, version, url, sha256, iconSha256))
  {
    TokenNames();
    var t1 := Fill(t, "version", version);
    var t2 := Fill(t1, "url", url);
    var t3 := Fill(t2, "sha256", sha256);
    ReplaceFillsSlots(t, "version", version);
    FillKeepsWellFormed(t, "version", version);
    ReplaceFillsSlots(t1, "url", url);
    FillKeepsWellFormed(t1, "url", url);
    ReplaceFillsSlots(t2, "sha256", sha256);
    FillKeepsWellFormed(t2, "sha256", sha256);
    ReplaceFillsSlots(t3, "icon_sha256", iconSha256);
  }

  /** The four names the renderer substitutes. */
  predicate RenderedName(n: string) {
    n == "version" || n == "url" || n == "sha256" || n == "icon_sha256"
  }

  /** Every slot of the template is one the renderer substitutes. */
  predicate OnlyRenderedSlots(t: seq<Piece>) {
    forall k :: 0 <= k < |t| ==> t[k].Slot? ==> RenderedName(t[k].name)
  }

  /** Every piece is plain literal text. */
  predicate AllPlainLiterals(t: seq<Piece>) {
    forall k :: 0 <= k < |t| ==> t[k].Literal? && PlainText(t[k].text)
  }

  /** Plain literals flatten to plain text. */
  lemma {:induction false} FlattenPlain(t: seq<Piece>)
    requires AllPlainLiterals(t)
    ensures PlainText(Flatten(t))
    decreases |t|
  {
    if |t| > 0 {
      assert AllPlainLiterals(t[1..]) by {
        forall k | 0 <= k < |t[1..]|
          ensures t[1..][k].Literal? && PlainText(t[1..][k].text)
        {
          assert t[1..][k] == t[k + 1];
        }
      }
      FlattenPlain(t[1..]);
      PlainConcat(t[0].text, Flatten(t[1..]));
    }
  }

  /** Filling all four names with plain values leaves only plain literals in
      a well-formed template whose slots all carry one of the four names. */
  lemma FillAllPlain(t: seq<Piece>, version: string, url: string, sha256: string, iconSha256: string)
    requires WellFormed(t) && OnlyRenderedSlots(t)
    requires PlainText(version) && PlainText(url) && PlainText(sha256) && PlainText(iconSha256)
    ensures AllPlainLiterals(FillAll(t, version, url, sha256, iconSha256))
  {
    var t1 := Fill(t, "version", version);
    var t2 := Fill(t1, "url", url);
    var t3 := Fill(t2, "sha256", sha256);
    var t4 := Fill(t3, "icon_sha256", iconSha256);
    forall k | 0 <= k < |t4|
      ensures t4[k].Literal? && PlainText(t4[k].text)
    {
      assert CleanPiece(t[k]);
      assert t4[k] == FillPiece(FillPiece(FillPiece(FillPiece(t[k], "version", version), "url", url), "sha256", sha256), "icon_sha256", iconSha256);
    }
  }

  /** A well-formed template whose slots all carry one of the four names
      renders, with plain values, to text holding no placeholder of any name,
      whatever the order and number of the slots. */
  lemma RenderLeavesNoPlaceholder(t: seq<Piece>, version: string, url: string, sha256: string, iconSha256: string)
    requires WellFormed(t) && OnlyRenderedSlots(t)
    requires PlainText(version) && PlainText(url) && PlainText(sha256) && PlainText(iconSha256)
    ensures forall n :: !Occurs(Placeholder(n), Render(Flatten(t), version, url, sha256, iconSha256))
  {
    var out := Render(Flatten(t), version, url, sha256, iconSha256);
    RenderFillsPlaceholders(t, version, url, sha256, iconSha256);
    FillAllPlain(t, version, url, sha256, iconSha256);
    FlattenPlain(FillAll(t, version, url, sha256, iconSha256));
    forall n
      ensures !Occurs(Placeholder(n), out)
    {
      PlainNoPlaceholder(out, n);
    }
  }

  /** Plain text at the front of a template passes through every step. */
  lemma RenderLiteralPrefix(x: string, s: string, version: string, url: string, sha256: string, iconSha256: string)
    requires PlainText(x)
    ensures Render(x + s, version, url, sha256, iconSha256) == x + Render(s, version, url, sha256, iconSha256)
  {
    var s1 := ReplaceAll(s, VersionToken, version);
    var s2 := ReplaceAll(s1, UrlToken, url);
    var s3 := ReplaceAll(s2, ShaToken, sha256);
    PlainPrefix(x, s, "version", version);
    PlainPrefix(x, s1, "url", url);
    PlainPrefix(x, s2, "sha256", sha256);
    PlainPrefix(x, s3, "icon_sha256", iconSha256);
  }

  /** A placeholder at the front, seen by a step for another name. */
  lemma ReplaceAllOtherToken(n: string, s: string, m: string, rep: string)
    requires BraceFree(n) && BraceFree(m) && n != m
    ensures ReplaceAll(Placeholder(n) + s, Placeholder(m), rep) == Placeholder(n) + ReplaceAll(s, Placeholder(m), rep)
  {
    var p, q := Placeholder(m), Placeholder(n);
    PlaceholdersIsolated(m, n);
    RightOfIsolatedClear(q, s, p);
    ReplaceAllSplit(q, s, p, rep);
    ReplaceAllAbsent(q, p, rep);
  }

  /** A placeholder at the front, seen by its own step. */
  lemma ReplaceAllOwnToken(n: string, s: string, rep: string)
    ensures ReplaceAll(Placeholder(n) + s, Placeholder(n), rep) == rep + ReplaceAll(s, Placeholder(n), rep)
  {
    assert (Placeholder(n) + s)[|Placeholder(n)|..] == s;
  }

  /** A leading `{{version}}` becomes the version, and rendering goes on
      after it. */
  lemma RenderVersionPrefix(s: string, version: string, url: string, sha256: string, iconSha256: string)
    requires PlainText(version)
    ensures Render(VersionToken + s, version, url, sha256, iconSha256) == version + Render(s, version, url, sha256, iconSha256)
  {
    TokenNames();
    var s1 := ReplaceAll(s, VersionToken, version);
    var s2 := ReplaceAll(s1, UrlToken, url);
    var s3 := ReplaceAll(s2, ShaToken, sha256);
    ReplaceAllOwnToken("version", s, version);
    RenderLiteralTail(version, s1, url, sha256, iconSha256);
  }

  /** Shell text with braces of its own, as a package function holds, passes
      through rendering untouched. */
  lemma RenderShellText(x: string, s: string, version: string, url: string, sha256: string, iconSha256: string)
    requires x == "package() {\n  cd \"${srcdir}\"\n}\n"
    ensures Render(x + s, version, url, sha256, iconSha256) == x + Render(s, version, url, sha256, iconSha256)
  {
    assert PlainText(x);
    RenderLiteralPrefix(x, s, version, url, sha256, iconSha256);
  }

  /** After the version step, plain text at the front passes through the
      three remaining steps. */
  lemma RenderLiteralTail(x: string, s1: string, url: string, sha256: string, iconSha256: string)
    requires PlainText(x)
    ensures ReplaceAll(ReplaceAll(ReplaceAll(x + s1, UrlToken, url), ShaToken, sha256), IconShaToken, iconSha256)
         == x + ReplaceAll(ReplaceAll(ReplaceAll(s1, UrlToken, url), ShaToken, sha256), IconShaToken, iconSha256)
  {
    var s2 := ReplaceAll(s1, UrlToken, url);
    var s3 := ReplaceAll(s2, ShaToken, sha256);
    PlainPrefix(x, s1, "url", url);
    PlainPrefix(x, s2, "sha256", sha256);
    PlainPrefix(x, s3, "icon_sha256", iconSha256);
  }

  /** A leading `{{url}}` becomes the url. */
  lemma RenderUrlPrefix(s: string, version: string, url: string, sha256: string, iconSha256: string)
    requires PlainText(url)
    ensures Render(UrlToken + s, version, url, sha256, iconSha256) == url + Render(s, version, url, sha256, iconSha256)
  {
    TokenNames();
    var s1 := ReplaceAll(s, VersionToken, version);
    var s2 := ReplaceAll(s1, UrlToken, url);
    var s3 := ReplaceAll(s2, ShaToken, sha256);
    ReplaceAllOtherToken("url", s, "version", version);
    ReplaceAllOwnToken("url", s1, url);
    PlainPrefix(url, s2, "sha256", sha256);
    PlainPrefix(url, s3, "icon_sha256", iconSha256);
  }

  /** A leading `{{sha256}}` becomes the AppImage checksum. */
  lemma RenderShaPrefix(s: string, version: string, url: string, sha256: string, iconSha256: string)
    requires PlainText(sha256)
    ensures Render(ShaToken + s, version, url, sha256, iconSha256) == sha256 + Render(s, version, url, sha256, iconSha256)
  {
    TokenNames();
    var s1 := ReplaceAll(s, VersionToken, version);
    var s2 := ReplaceAll(s1, UrlToken, url);
    var s3 := ReplaceAll(s2, ShaToken, sha256);
    ReplaceAllOtherToken("sha256", s, "version", version);
    ReplaceAllOtherToken("sha256", s1, "url", url);
    ReplaceAllOwnToken("sha256", s2, sha256);
    PlainPrefix(sha256, s3, "icon_sha256", iconSha256);
  }

  /** A leading `{{icon_sha256}}` survives the first three steps and becomes
      the icon checksum, whatever that value holds. */
  lemma RenderIconPrefix(s: string, version: string, url: string, sha256: string, iconSha256: string)
    ensures Render(IconShaToken + s, version, url, sha256, iconSha256) == iconSha256 + Render(s, version, url, sha256, iconSha256)
  {
    TokenNames();
    var s1 := ReplaceAll(s, VersionToken, version);
    var s2 := ReplaceAll(s1, UrlToken, url);
    ReplaceAllOtherToken("icon_sha256", s, "version", version);
    ReplaceAllOtherToken("icon_sha256", s1, "url", url);
    ReplaceAllOtherToken("icon_sha256", s2, "sha256", sha256);
    ReplaceAllOwnToken("icon_sha256", ReplaceAll(s2, ShaToken, sha256), iconSha256);
  }

  /** A template holding each placeholder once, in order, renders to the four
      values at the placeholders' positions with the text between them kept. */
  lemma RenderEachOnce(p0: string, p1: string, p2: string, p3: string, p4: string,
                       version: string, url: string, sha256: string, iconSha256: string)
    requires PlainText(p0) && PlainText(p1) && PlainText(p2) && PlainText(p3) && PlainText(p4)
    requires PlainText(version) && PlainText(url) && PlainText(sha256)
    ensures Render(p0 + VersionToken + p1 + UrlToken + p2 + ShaToken + p3 + IconShaToken + p4,
                   version, url, sha256, iconSha256)
         == p0 + version + p1 + url + p2 + sha256 + p3 + iconSha256 + p4
  {
    var tail := p2 + (ShaToken + (p3 + (IconShaToken + p4)));
    Regroup(p0, VersionToken, p1, UrlToken, p2, ShaToken, p3, IconShaToken, p4);
    Regroup(p0, version, p1, url, p2, sha256, p3, iconSha256, p4);
    RenderFirstHalf(p0, p1, tail, version, url, sha256, iconSha256);
    RenderSecondHalf(p2, p3, p4, version, url, sha256, iconSha256);
  }

  /** Nine parts concatenated from the left, regrouped from the right. */
  lemma Regroup(a: string, b: string, c: string, d: string, e: string, f: string, g: string, h: string, i: string)
    ensures a + b + c + d + e + f + g + h + i == a + (b + (c + (d + (e + (f + (g + (h + i)))))))
  {
  }

  lemma RenderFirstHalf(p0: string, p1: string, tail: string,
                        version: string, url: string, sha256: string, iconSha256: string)
    requires PlainText(p0) && PlainText(p1) && PlainText(version) && PlainText(url)
    ensures Render(p0 + (VersionToken + (p1 + (UrlToken + tail))), version, url, sha256, iconSha256)
         == p0 + (version + (p1 + (url + Render(tail, version, url, sha256, iconSha256))))
  {
    RenderLiteralPrefix(p0, VersionToken + (p1 + (UrlToken + tail)), version, url, sha256, iconSha256);
    RenderVersionPrefix(p1 + (UrlToken + tail), version, url, sha256, iconSha256);
    RenderLiteralPrefix(p1, UrlToken + tail, version, url, sha256, iconSha256);
    RenderUrlPrefix(tail, version, url, sha256, iconSha256);
  }

  lemma RenderSecondHalf(p2: string, p3: string, p4: string,
                         version: string, url: string, sha256: string, iconSha256: string)
    requires PlainText(p2) && PlainText(p3) && PlainText(p4) && PlainText(sha256)
    ensures Render(p2 + (ShaToken + (p3 + (IconShaToken + p4))), version, url, sha256, iconSha256)
         == p2 + (sha256 + (p3 + (iconSha256 + p4)))
  {
    RenderLiteralPrefix(p2, ShaToken + (p3 + (IconShaToken + p4)), version, url, sha256, iconSha256);
    RenderShaPrefix(p3 + (IconShaToken + p4), version, url, sha256, iconSha256);
    RenderLiteralPrefix(p3, IconShaToken + p4, version, url, sha256, iconSha256);
    RenderIconPrefix(p4, version, url, sha256, iconSha256);
    RenderLiteralPrefix(p4, [], version, url, sha256, iconSha256);
    assert p4 + [] == p4;
  }

  /** The order is observable: a url that itself spells `{{sha256}}` is
      rewritten by the later sha256 step ... */
  lemma RenderUrlThenSha(version: string, sha256: string, iconSha256: string)
    requires PlainText(sha256)
    ensures Render(UrlToken, version, ShaToken, sha256, iconSha256) == sha256
  {
    TokenNames();
    PlaceholderNotInOther("version", "url");
    ReplaceAllAbsent(UrlToken, VersionToken, version);
    ReplaceAllWhole(UrlToken, ShaToken);
    ReplaceAllWhole(ShaToken, sha256);
    PlainNoPlaceholder(sha256, "icon_sha256");
    ReplaceAllAbsent(sha256, IconShaToken, iconSha256);
  }

  /** ... while a sha256 value spelling `{{url}}` is left as it is, because the
      url step has already run. */
  lemma RenderShaAfterUrl(version: string, url: string, iconSha256: string)
    ensures Render(ShaToken, version, url, UrlToken, iconSha256) == UrlToken
  {
    TokenNames();
    PlaceholderNotInOther("version", "sha256");
    PlaceholderNotInOther("url", "sha256");
    PlaceholderNotInOther("icon_sha256", "url");
    ReplaceAllAbsent(ShaToken, VersionToken, version);
    ReplaceAllAbsent(ShaToken, UrlToken, url);
    ReplaceAllWhole(ShaToken, UrlToken);
    ReplaceAllAbsent(UrlToken, IconShaToken, iconSha256);
  }
}

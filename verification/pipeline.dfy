/** The pure data flow of the maintenance run: file name from the resolved
    URL, version from the file name, then the package description rendered
    from the template. Resolving the URL, downloading, hashing and writing
    files are outside the model; the resolved URL, the template text and the
    digest function are parameters. */
module Pipeline {
  import opened Results
  import opened Text
  import opened Version
  import opened UrlPath
  import opened Template

  /** The file name of the static icon whose digest goes into the package. */
  const IconFile := "lmstudio.png"

  /** What one run produces before writing anything: the downloaded file's
      name, the version read from it and the rendered package description. */
  datatype Update = Update(filename: string, version: string, pkgbuild: string)

  /** A lower-case hexadecimal SHA-256 digest, as `hexdigest()` returns it. */
  predicate IsHexDigest(d: string) {
    |d| == 64 && forall k :: 0 <= k < |d| ==> ('0' <= d[k] <= '9' || 'a' <= d[k] <= 'f')
  }

  /** One run. `digest` stands for hashing the file at a path. A file name
      with no version stops the run before anything is downloaded, hashed or
      rendered. Resolving, downloading, hashing and reading the template
      cannot fail here, so the extraction error is the only failure. */
  function PlanUpdate(finalUrl: string, template: string, digest: string -> string): (r: Result<Update>)
    ensures r.Err? <==> ExtractVersion(LastSegment(finalUrl)).Err?
    ensures r.Err? ==> r.error == VersionNotFound(LastSegment(finalUrl))
    ensures r.Ok? ==> IsLastSegment(finalUrl, r.value.filename) && IsVersion(r.value.version)
  {
    var filename := LastSegment(finalUrl);
    var version :- ExtractVersion(filename);
    var sha256 := digest(filename);
    var iconSha256 := digest(IconFile);
    Ok(Update(filename, version, Render(template, version, finalUrl, sha256, iconSha256)))
  }

  /** The version reported is the leftmost match in the file name, and the run
      fails exactly when the file name holds no match at all. */
  lemma PlanUpdateVersion(finalUrl: string, template: string, digest: string -> string)
    ensures var name := LastSegment(finalUrl);
      match PlanUpdate(finalUrl, template, digest)
      case Ok(u) => exists i: nat :: LeftmostMatch(name, i, u.version)
      case Err(_) => forall i: nat, v :: !MatchesAt(name, i, v)
  {
    var name := LastSegment(finalUrl);
    ExtractVersionFailsIffNoMatch(name);
    if ExtractVersion(name).Ok? {
      ExtractVersionLeftmost(name, ExtractVersion(name).value);
    }
  }

  /** A version is free of braces, so it never forms a placeholder. */
  lemma VersionBraceFree(v: string)
    requires IsVersion(v)
    ensures '{' !in v
  {
  }

  /** A hexadecimal digest is free of braces. */
  lemma DigestBraceFree(d: string)
    requires IsHexDigest(d)
    ensures '{' !in d
  {
  }

  /** A run on a URL ending in a plain AppImage name reads the version from
      that name and renders the template with it, the URL and the digests of
      the AppImage and of the icon. */
  lemma PlanUpdateForRelease(base: string, v: string, template: string, digest: string -> string)
    requires IsVersion(v)
    ensures var name := Prefix + v + "-" + Suffix;
      var url := base + "/" + name;
      PlanUpdate(url, template, digest)
      == Ok(Update(name, v, Render(template, v, url, digest(name), digest(IconFile))))
  {
    var name := Prefix + v + "-" + Suffix;
    LastSegmentOfPath(base, name);
    ExtractPlainName(v);
  }

  /** End to end, for a download whose URL ends in a plain AppImage name and a
      template holding each placeholder once, in the order version, url,
      sha256, icon_sha256, with plain shell text such as `${pkgdir}` around
      them: the version is read from the name, each placeholder receives its
      value, and, the icon digest being hexadecimal as well, no placeholder
      of any name is left in the package description. */
  lemma PlanUpdateEndToEnd(base: string, v: string, digest: string -> string,
                           p0: string, p1: string, p2: string, p3: string, p4: string)
    requires IsVersion(v)
    requires PlainText(base)
    requires IsHexDigest(digest(Prefix + v + "-" + Suffix))
    requires PlainText(p0) && PlainText(p1) && PlainText(p2) && PlainText(p3) && PlainText(p4)
    ensures var name := Prefix + v + "-" + Suffix;
      var url := base + "/" + name;
      var out := p0 + v + p1 + url + p2 + digest(name) + p3 + digest(IconFile) + p4;
      && PlanUpdate(url, p0 + VersionToken + p1 + UrlToken + p2 + ShaToken + p3 + IconShaToken + p4, digest)
         == Ok(Update(name, v, out))
      && (IsHexDigest(digest(IconFile)) ==> forall n :: !Occurs(Placeholder(n), out))
  {
    var name := Prefix + v + "-" + Suffix;
    var url := base + "/" + name;
    var template := p0 + VersionToken + p1 + UrlToken + p2 + ShaToken + p3 + IconShaToken + p4;
    var out := p0 + v + p1 + url + p2 + digest(name) + p3 + digest(IconFile) + p4;
    PlanUpdateForRelease(base, v, template, digest);
    VersionBraceFree(v);
    NoBracePlain(v);
    DigestPlain(digest(name));
    UrlPlain(base, v);
    RenderEachOnce(p0, p1, p2, p3, p4, v, url, digest(name), digest(IconFile));
    if IsHexDigest(digest(IconFile)) {
      DigestPlain(digest(IconFile));
      PlainNine(p0, v, p1, url, p2, digest(name), p3, digest(IconFile), p4);
      forall n
        ensures !Occurs(Placeholder(n), out)
      {
        PlainNoPlaceholder(out, n);
      }
    }
  }

  /** Whatever the order and number of its placeholders, a template of plain
      literals and the four placeholders comes out of a successful run with
      no placeholder of any name left, given hexadecimal digests. */
  lemma PlanUpdateLeavesNoPlaceholder(finalUrl: string, t: seq<Piece>, digest: string -> string)
    requires WellFormed(t) && OnlyRenderedSlots(t) && PlainText(finalUrl)
    requires IsHexDigest(digest(LastSegment(finalUrl))) && IsHexDigest(digest(IconFile))
    ensures var r := PlanUpdate(finalUrl, Flatten(t), digest);
      r.Ok? ==> forall n :: !Occurs(Placeholder(n), r.value.pkgbuild)
  {
    var r := PlanUpdate(finalUrl, Flatten(t), digest);
    if r.Ok? {
      var filename := LastSegment(finalUrl);
      var version := ExtractVersion(filename).value;
      VersionBraceFree(version);
      NoBracePlain(version);
      DigestPlain(digest(filename));
      DigestPlain(digest(IconFile));
      RenderLeavesNoPlaceholder(t, version, finalUrl, digest(filename), digest(IconFile));
    }
  }

  /** A hexadecimal digest is plain text. */
  lemma DigestPlain(d: string)
    requires IsHexDigest(d)
    ensures PlainText(d)
  {
    DigestBraceFree(d);
    NoBracePlain(d);
  }

  /** Such a URL is plain text when its directory part is. */
  lemma UrlPlain(base: string, v: string)
    requires IsVersion(v) && PlainText(base)
    ensures PlainText(base + "/" + (Prefix + v + "-" + Suffix))
  {
    VersionBraceFree(v);
    assert '{' !in Prefix && '{' !in Suffix;
    var tail := "/" + (Prefix + v + "-" + Suffix);
    assert '{' !in tail;
    NoBracePlain(tail);
    PlainConcat(base, tail);
    assert base + "/" + (Prefix + v + "-" + Suffix) == base + tail;
  }

  /** Nine plain parts make plain text. */
  lemma PlainNine(a: string, b: string, c: string, d: string, e: string, f: string, g: string, h: string, i: string)
    requires PlainText(a) && PlainText(b) && PlainText(c) && PlainText(d) && PlainText(e)
    requires PlainText(f) && PlainText(g) && PlainText(h) && PlainText(i)
    ensures PlainText(a + b + c + d + e + f + g + h + i)
  {
    PlainConcat(a, b);
    PlainConcat(a + b, c);
    PlainConcat(a + b + c, d);
    PlainConcat(a + b + c + d, e);
    PlainConcat(a + b + c + d + e, f);
    PlainConcat(a + b + c + d + e + f, g);
    PlainConcat(a + b + c + d + e + f + g, h);
    PlainConcat(a + b + c + d + e + f + g + h, i);
  }

  /** The checksum array of the template, `sha256sums=('{{sha256}}'
      '{{icon_sha256}}' 'SKIP')`, receives the AppImage digest and then the
      icon digest, with the desktop file left as `SKIP`. */
  lemma ChecksumLine(line: string, lead: string, sep: string, trail: string,
                     version: string, url: string, sha256: string, iconSha256: string)
    requires lead == "sha256sums=('" && sep == "' '" && trail == "' 'SKIP')"
    requires line == lead + (ShaToken + (sep + (IconShaToken + trail)))
    requires IsHexDigest(sha256)
    ensures Render(line, version, url, sha256, iconSha256) == lead + sha256 + sep + iconSha256 + trail
  {
    DigestPlain(sha256);
    NoBracePlain(lead);
    NoBracePlain(sep);
    NoBracePlain(trail);
    RenderSecondHalf(lead, sep, trail, version, url, sha256, iconSha256);
  }
}

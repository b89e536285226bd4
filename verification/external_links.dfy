/**
 Recognition of `youwee://` deep links handed to the application on its
 command line (src-tauri/src/commands/external.rs): the validity test, the
 extraction of a link from one argument, and the scan over all arguments.
 */
module ExternalLinks {
  import opened Wrappers
  import opened Text
  import opened Sequences

  /** Longest accepted link, in UTF-8 bytes after trimming. */
  const MaxExternalLinkLength: nat := 4096
  const LinkScheme: string := "youwee://"
  const DownloadPrefix: string := "youwee://download"
  const VersionMarker: string := "v=1"
  const UrlMarker: string := "url="

  /** `is_valid_external_link`: after trimming whitespace the link is
      non-empty, at most 4096 bytes long, starts with `youwee://download`
      and contains `v=1` and `url=` somewhere. */
  predicate IsValidExternalLink(link: string)
  {
    var t := Trim(link);
    if |t| == 0 || Utf8Length(t) > MaxExternalLinkLength then false
    else if !StartsWith(t, DownloadPrefix) then false
    else Contains(t, VersionMarker) && Contains(t, UrlMarker)
  }

  /** Validity in terms of plain occurrences: the markers are substring
      tests anywhere in the trimmed text, not query-parameter lookups. */
  lemma ValidLinkCharacterisation(link: string)
    ensures IsValidExternalLink(link) <==>
      var t := Trim(link);
      && |t| > 0
      && Utf8Length(t) <= MaxExternalLinkLength
      && |DownloadPrefix| <= |t| && t[..|DownloadPrefix|] == DownloadPrefix
      && (exists i :: OccursAt(t, VersionMarker, i))
      && (exists j :: OccursAt(t, UrlMarker, j))
  {
  }

  /** A valid link has between 17 and 4096 characters once trimmed: the
      byte bound also bounds the character count. */
  lemma ValidLinkLengthBounds(link: string)
    requires IsValidExternalLink(link)
    ensures |DownloadPrefix| <= |Trim(link)| <= MaxExternalLinkLength
  {
  }

  /** Surrounding whitespace never changes validity. */
  lemma ValidIgnoresWhitespace(w1: string, link: string, w2: string)
    requires AllSelected(w1, IsWhitespace) && AllSelected(w2, IsWhitespace)
    ensures IsValidExternalLink(w1 + link + w2) == IsValidExternalLink(link)
  {
    TrimIgnoresPadding(w1, link, w2);
  }

  /** Validity of a link and of its trimmed form agree. */
  lemma ValidTrimmed(link: string)
    ensures IsValidExternalLink(Trim(link)) == IsValidExternalLink(link)
  {
    StripIdempotent(link, IsWhitespace);
  }

  /** For a link without surrounding whitespace, written in ASCII,
      validity is the prefix test, the character bound and two plain
      occurrences. */
  lemma ValidCleanAsciiLink(link: string, i: int, j: int)
    requires IsAscii(link) && link != []
    requires !IsWhitespace(link[0]) && !IsWhitespace(link[|link| - 1])
    requires |link| <= MaxExternalLinkLength && StartsWith(link, DownloadPrefix)
    requires OccursAt(link, VersionMarker, i) && OccursAt(link, UrlMarker, j)
    ensures IsValidExternalLink(link)
  {
    StripKeepsClean(link, IsWhitespace);
    Utf8LengthAscii(link);
  }

  /** The version marker is a substring test: `dev=1` passes it. */
  lemma VersionMarkerInsideOtherParameter()
    ensures IsValidExternalLink("youwee://download?dev=1&url=")
  {
    var a := "youwee://download?dev=1&url=";
    assert a[..|DownloadPrefix|] == DownloadPrefix;
    assert a[20..23] == VersionMarker;
    assert a[24..28] == UrlMarker;
    ValidCleanAsciiLink(a, 20, 24);
  }

  /** Any version starting with 1 passes: `v=10` contains `v=1`. */
  lemma VersionMarkerPrefixOfOtherVersion()
    ensures IsValidExternalLink("youwee://download?v=10&url=x")
  {
    var b := "youwee://download?v=10&url=x";
    assert b[..|DownloadPrefix|] == DownloadPrefix;
    assert b[18..21] == VersionMarker;
    assert b[23..27] == UrlMarker;
    ValidCleanAsciiLink(b, 18, 23);
  }

  /** Only the prefix `youwee://download` is checked, not what follows it,
      and the markers may overlap other text. */
  lemma PrefixNotFollowedByQuery()
    ensures IsValidExternalLink("youwee://downloads?xurl=v=1")
  {
    var c := "youwee://downloads?xurl=v=1";
    assert c[..|DownloadPrefix|] == DownloadPrefix;
    assert c[24..27] == VersionMarker;
    assert c[20..24] == UrlMarker;
    ValidCleanAsciiLink(c, 24, 20);
  }

  /** The argument with surrounding whitespace, then double quotes, then
      single quotes removed (in that order, one pass each). */
  function StripArg(arg: string): (r: string)
  {
    TrimMatches(TrimMatches(Trim(arg), '"'), '\'')
  }

  /** `extract_external_link_from_arg`: a stripped argument that starts
      with the scheme is returned whole when valid; otherwise the text from
      the first `youwee://` on, with quotes stripped, is returned when
      valid. Whatever is returned starts with the scheme and is valid. */
  function ExtractLinkFromArg(arg: string): (r: Option<string>)
    ensures r.Some? ==> StartsWith(r.value, LinkScheme)
    ensures r.Some? ==> IsValidExternalLink(r.value)
  {
    var stripped := StripArg(arg);
    if StartsWith(stripped, LinkScheme) then
      if IsValidExternalLink(stripped) then Some(stripped) else None
    else
      match Find(stripped, LinkScheme)
      case None => None
      case Some(start) =>
        StripQuotesKeepsScheme(stripped[start..]);
        var candidate := TrimMatches(stripped[start..], '"');
        if IsValidExternalLink(candidate) then Some(candidate) else None
  }

  /** On text starting with the scheme, stripping double quotes only cuts
      trailing quotes. */
  lemma StripQuotesKeepsScheme(u: string)
    requires StartsWith(u, LinkScheme)
    ensures TrimMatches(u, '"') == TrimEndBy(u, Is('"'))
    ensures StartsWith(TrimMatches(u, '"'), LinkScheme)
  {
  }

  /** A stripped argument that starts with the scheme is taken as it is,
      or refused when it is not a valid link. */
  lemma ExtractPrefixedArg(arg: string)
    requires StartsWith(StripArg(arg), LinkScheme)
    ensures IsValidExternalLink(StripArg(arg)) ==> ExtractLinkFromArg(arg) == Some(StripArg(arg))
    ensures !IsValidExternalLink(StripArg(arg)) ==> ExtractLinkFromArg(arg) == None
  {
  }

  /** Otherwise the link is the suffix from the first `youwee://` with its
      trailing double quotes removed, when that suffix is valid. */
  lemma ExtractEmbeddedLink(arg: string, i: nat)
    requires !StartsWith(StripArg(arg), LinkScheme)
    requires OccursAt(StripArg(arg), LinkScheme, i)
    requires forall k :: 0 <= k < i ==> !OccursAt(StripArg(arg), LinkScheme, k)
    ensures var candidate := TrimEndBy(StripArg(arg)[i..], Is('"'));
      ExtractLinkFromArg(arg) == if IsValidExternalLink(candidate) then Some(candidate) else None
  {
    var s := StripArg(arg);
    var f := Find(s, LinkScheme);
    assert f.Some? && f.value == i;
    assert s[i..][..|LinkScheme|] == s[i..i + |LinkScheme|];
    StripQuotesKeepsScheme(s[i..]);
  }

  /** Without any `youwee://` in the stripped argument nothing is found. */
  lemma ExtractWithoutScheme(arg: string)
    requires forall k :: !OccursAt(StripArg(arg), LinkScheme, k)
    ensures ExtractLinkFromArg(arg) == None
  {
    var s := StripArg(arg);
    if StartsWith(s, LinkScheme) {
      assert OccursAt(s, LinkScheme, 0);
    }
  }

  /** Stripping an argument only cuts characters away at its ends. */
  lemma StripArgIsSlice(arg: string)
    ensures exists b :: IsSliceAt(StripArg(arg), arg, b)
  {
    var t0 := Trim(arg);
    StripByShape(arg, IsWhitespace);
    var a0 :| IsSliceAt(t0, arg, a0);
    var t1 := TrimMatches(t0, '"');
    StripByShape(t0, Is('"'));
    var a1 :| IsSliceAt(t1, t0, a1);
    SliceTransitive(t1, t0, arg, a1, a0);
    var s := TrimMatches(t1, '\'');
    StripByShape(t1, Is('\''));
    var a2 :| IsSliceAt(s, t1, a2);
    SliceTransitive(s, t1, arg, a2, a1 + a0);
    assert IsSliceAt(StripArg(arg), arg, a2 + a1 + a0);
  }

  /** An extracted link is a contiguous piece of the argument: extraction
      only cuts characters away, it never rewrites them. */
  lemma ExtractedLinkIsSliceOfArg(arg: string)
    requires ExtractLinkFromArg(arg).Some?
    ensures exists a :: IsSliceAt(ExtractLinkFromArg(arg).value, arg, a)
  {
    var s := StripArg(arg);
    StripArgIsSlice(arg);
    var b :| IsSliceAt(s, arg, b);
    if !StartsWith(s, LinkScheme) {
      var start := Find(s, LinkScheme).value;
      var u := s[start..];
      assert IsSliceAt(u, s, start);
      SliceTransitive(u, s, arg, start, b);
      var c := TrimMatches(u, '"');
      StripByShape(u, Is('"'));
      var a3 :| IsSliceAt(c, u, a3);
      SliceTransitive(c, u, arg, a3, start + b);
      assert ExtractLinkFromArg(arg).value == c;
    }
  }

  /** A link with no surrounding whitespace or quotes is extracted from an
      argument holding just that link. */
  lemma ExtractCleanLink(l: string)
    requires IsValidExternalLink(l) && StartsWith(l, LinkScheme)
    requires !IsWhitespace(l[|l| - 1]) && l[|l| - 1] != '"' && l[|l| - 1] != '\''
    ensures ExtractLinkFromArg(l) == Some(l)
  {
  }

  /** Shell quoting and padding around a clean link are removed. */
  lemma ExtractQuotedLink(w1: string, l: string, w2: string)
    requires AllSelected(w1, IsWhitespace) && AllSelected(w2, IsWhitespace)
    requires IsValidExternalLink(l) && StartsWith(l, LinkScheme)
    requires !IsWhitespace(l[|l| - 1]) && l[|l| - 1] != '"' && l[|l| - 1] != '\''
    ensures ExtractLinkFromArg(w1 + "\"" + l + "\"" + w2) == Some(l)
  {
    var q := "\"";
    var quoted := q + l + q;
    assert w1 + q + l + q + w2 == w1 + quoted + w2;
    TrimIgnoresPadding(w1, quoted, w2);
    assert TrimStartBy(quoted, IsWhitespace) == quoted;
    assert TrimEndBy(quoted, IsWhitespace) == quoted;
    assert AllSelected(q, Is('"'));
    StripIgnoresPadding(q, l, q, Is('"'));
    assert l[0] == 'y';
    assert TrimStartBy(l, Is('"')) == l;
    assert TrimStartBy(l, Is('\'')) == l;
    ExtractCleanLink(l);
  }

  /** Whitespace inside the quotes survives: the link handed on is valid
      but not trimmed. */
  lemma ExtractKeepsInnerWhitespace(l: string)
    requires IsValidExternalLink(l) && StartsWith(l, LinkScheme)
    ensures ExtractLinkFromArg("\"" + l + " \"") == Some(l + " ")
  {
    var q := "\"";
    var inner := l + " ";
    var arg := q + inner + q;
    assert "\"" + l + " \"" == arg;
    assert l[0] == 'y';
    assert TrimStartBy(arg, IsWhitespace) == arg;
    assert TrimEndBy(arg, IsWhitespace) == arg;
    assert AllSelected(q, Is('"'));
    StripIgnoresPadding(q, inner, q, Is('"'));
    assert TrimStartBy(inner, Is('"')) == inner;
    assert TrimEndBy(inner, Is('"')) == inner;
    assert TrimStartBy(inner, Is('\'')) == inner;
    assert TrimEndBy(inner, Is('\'')) == inner;
    assert StripArg(arg) == inner;
    assert AllSelected(" ", IsWhitespace);
    assert AllSelected("", IsWhitespace);
    assert "" + l + " " == inner;
    ValidIgnoresWhitespace("", l, " ");
    assert StartsWith(inner, LinkScheme) by {
      assert inner[..|LinkScheme|] == l[..|LinkScheme|];
    }
  }

  /** The result of extracting a link from each argument. */
  function ExtractEach(argv: seq<string>): (found: seq<Option<string>>)
    ensures |found| == |argv|
    ensures forall k :: 0 <= k < |argv| ==> found[k] == ExtractLinkFromArg(argv[k])
  {
    seq(|argv|, k requires 0 <= k < |argv| => ExtractLinkFromArg(argv[k]))
  }

  /** `extract_external_links_from_argv`: the links extracted from the
      arguments, each once, in the order of their first appearance. */
  method ExtractLinksFromArgv(argv: seq<string>) returns (links: seq<string>)
    ensures NoDuplicates(links)
    ensures |links| <= |argv|
    ensures forall l :: l in links ==> IsValidExternalLink(l)
    ensures forall l :: l in links ==>
      exists k :: 0 <= k < |argv| && ExtractLinkFromArg(argv[k]) == Some(l)
    ensures forall k :: 0 <= k < |argv| && ExtractLinkFromArg(argv[k]).Some? ==>
      ExtractLinkFromArg(argv[k]).value in links
    ensures forall p, q :: 0 <= p < q < |links| ==>
      FirstIndex(ExtractEach(argv), Some(links[p])) < FirstIndex(ExtractEach(argv), Some(links[q]))
  {
    var found := ExtractEach(argv);
    links := KeepFirstOccurrences(found);
    forall l | l in links
      ensures IsValidExternalLink(l)
      ensures exists k :: 0 <= k < |argv| && ExtractLinkFromArg(argv[k]) == Some(l)
    {
      assert ExtractLinkFromArg(argv[FirstIndex(found, Some(l))]) == Some(l);
    }
  }
}

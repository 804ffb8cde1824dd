/** `parse_cookies` and `format_cookies`: the translation between a cookie
    header string (`a=1; b=2`) and the browser's cookie records. */
module Cookies {
  import opened Wrappers
  import opened Text

  /** A browser cookie record. A record whose `domain` key is missing is
      represented with `domain == ""`: `format_cookies` reads it with
      `c.get('domain', '')`, so the two behave the same. */
  datatype Cookie = Cookie(name: string, value: string, domain: string, path: string)

  /** The domain and path every parsed cookie is given. */
  const CookieDomain: string := ".zeabur.com"
  const CookiePath: string := "/"
  /** `format_cookies` keeps a cookie when its domain contains this text. */
  const DomainMarker: string := "zeabur.com"

  /** What every cookie produced by parsing looks like: fixed domain and path,
      a whitespace-trimmed name holding neither `=` nor `;`, and a
      whitespace-trimmed value holding no `;` (it may hold `=`). */
  predicate WellFormed(c: Cookie) {
    c.domain == CookieDomain && c.path == CookiePath &&
    IsStripped(c.name) && '=' !in c.name && ';' !in c.name &&
    IsStripped(c.value) && ';' !in c.value
  }

  // ---------------------------------------------------------------- parsing

  /** One iteration of the `parse_cookies` loop: strip the segment, split it at
      its first `=`, strip both halves; a segment without `=` gives nothing. */
  function ParseSegment(segment: string): (r: Option<Cookie>)
    ensures r.None? <==> '=' !in segment
    ensures r.Some? && ';' !in segment ==> WellFormed(r.value)
  {
    var trimmed := Strip(segment);
    StripKeeps(segment, '=');
    StripKeeps(segment, ';');
    match SplitOnce(trimmed, '=')
    case None => None
    case Some(parts) =>
      StripKeeps(parts.0, '=');
      StripKeeps(parts.0, ';');
      StripKeeps(parts.1, ';');
      Some(Cookie(Strip(parts.0), Strip(parts.1), CookieDomain, CookiePath))
  }

  /** The cookies that a sequence of `;`-separated segments gives, in order. */
  function ParseSegments(segments: seq<string>): (r: seq<Cookie>)
    ensures |r| <= |segments|
  {
    if segments == [] then []
    else
      match ParseSegment(segments[0])
      case None => ParseSegments(segments[1..])
      case Some(c) => [c] + ParseSegments(segments[1..])
  }

  /** The value `parse_cookies(cookie_string)` returns: at most one cookie per
      `;`-separated segment, every one of them well formed. */
  function Parse(cookieString: string): (r: seq<Cookie>)
    ensures |r| <= Count(cookieString, ';') + 1
    ensures forall k :: 0 <= k < |r| ==> WellFormed(r[k])
  {
    ParseSegmentsWellFormed(Split(cookieString, ';'));
    ParseSegments(Split(cookieString, ';'))
  }

  /** `parse_cookies`: walks the `;`-separated segments and appends one cookie
      for each segment that holds an `=`. */
  method ParseCookies(cookieString: string) returns (cookies: seq<Cookie>)
    ensures cookies == Parse(cookieString)
    ensures forall k :: 0 <= k < |cookies| ==> WellFormed(cookies[k])
  {
    var segments := Split(cookieString, ';');
    cookies := [];
    var i := 0;
    while i < |segments|
      invariant 0 <= i <= |segments|
      invariant cookies == ParseSegments(segments[..i])
    {
      var parsed := ParseSegment(segments[i]);
      ParseSegmentsStep(segments, i);
      if parsed.Some? {
        cookies := cookies + [parsed.value];
      }
      i := i + 1;
    }
    assert segments[..i] == segments;
  }

  /** One more segment adds its cookie, if it has one, at the end. */
  lemma {:induction false} ParseSegmentsStep(segments: seq<string>, i: nat)
    requires i < |segments|
    ensures ParseSegments(segments[..i + 1])
         == ParseSegments(segments[..i])
            + (if ParseSegment(segments[i]).Some? then [ParseSegment(segments[i]).value] else [])
  {
    calc {
      ParseSegments(segments[..i + 1]);
      { assert segments[..i + 1] == segments[..i] + [segments[i]]; }
      ParseSegments(segments[..i] + [segments[i]]);
      { ParseSegmentsAppend(segments[..i], [segments[i]]); }
      ParseSegments(segments[..i]) + ParseSegments([segments[i]]);
      { ParseSegmentsSingle(segments[i]); }
      ParseSegments(segments[..i])
        + (if ParseSegment(segments[i]).Some? then [ParseSegment(segments[i]).value] else []);
    }
  }

  lemma {:induction false} ParseSegmentsSingle(segment: string)
    ensures ParseSegments([segment])
         == if ParseSegment(segment).Some? then [ParseSegment(segment).value] else []
  {
    assert [segment][1..] == [];
  }

  /** Parsing works segment by segment: the cookies of two runs of segments
      are the cookies of the first followed by those of the second. */
  lemma {:induction false} ParseSegmentsAppend(a: seq<string>, b: seq<string>)
    ensures ParseSegments(a + b) == ParseSegments(a) + ParseSegments(b)
  {
    if a == [] {
      assert a + b == b;
    } else {
      assert (a + b)[1..] == a[1..] + b;
      ParseSegmentsAppend(a[1..], b);
    }
  }

  /** The number of segments holding an `=`. */
  function SegmentsWithEq(segments: seq<string>): nat {
    if segments == [] then 0
    else (if '=' in segments[0] then 1 else 0) + SegmentsWithEq(segments[1..])
  }

  /** Exactly one cookie per segment that holds an `=`: the others are dropped. */
  lemma {:induction false} ParseSegmentsCount(segments: seq<string>)
    ensures |ParseSegments(segments)| == SegmentsWithEq(segments)
  {
    if segments != [] {
      ParseSegmentsCount(segments[1..]);
    }
  }

  /** Segments free of `;` give only well-formed cookies. */
  lemma {:induction false} ParseSegmentsWellFormed(segments: seq<string>)
    requires forall k :: 0 <= k < |segments| ==> ';' !in segments[k]
    ensures forall k :: 0 <= k < |ParseSegments(segments)| ==> WellFormed(ParseSegments(segments)[k])
  {
    if segments != [] {
      ParseSegmentsWellFormed(segments[1..]);
    }
  }

  /** The empty string splits into one empty segment, which holds no `=`. */
  lemma ParseEmpty()
    ensures Parse("") == []
  {
  }

  /** An independent description of one segment: the name is the stripped text
      before the segment's first `=` and the value the stripped text after it.
      Stripping the whole segment first, as the loop does, changes neither. */
  lemma {:induction false} ParseSegmentReference(segment: string, k: nat)
    requires k < |segment| && segment[k] == '=' && '=' !in segment[..k]
    ensures ParseSegment(segment)
         == Some(Cookie(Strip(segment[..k]), Strip(segment[k + 1..]), CookieDomain, CookiePath))
  {
    StripThenSplitOnce(segment, '=', k);
  }

  // ------------------------------------------------------------- formatting

  /** `'zeabur.com' in c.get('domain', '')`. */
  predicate Kept(c: Cookie) {
    Contains(c.domain, DomainMarker)
  }

  /** The cookies `format_cookies` keeps, in their input order. */
  function KeptCookies(cookies: seq<Cookie>): (r: seq<Cookie>)
    ensures |r| <= |cookies|
    ensures forall c :: c in r <==> c in cookies && Kept(c)
  {
    if cookies == [] then []
    else if Kept(cookies[0]) then [cookies[0]] + KeptCookies(cookies[1..])
    else KeptCookies(cookies[1..])
  }

  /** `f"{c['name']}={c['value']}"`. */
  function Render(c: Cookie): string {
    c.name + "=" + c.value
  }

  function RenderAll(cookies: seq<Cookie>): (r: seq<string>)
    ensures |r| == |cookies|
    ensures forall k :: 0 <= k < |r| ==> r[k] == Render(cookies[k])
  {
    if cookies == [] then [] else [Render(cookies[0])] + RenderAll(cookies[1..])
  }

  /** `format_cookies(cookies)`. The result is empty exactly when no cookie is
      kept (each kept cookie contributes at least its `=`); otherwise it starts
      with the first kept cookie rendered as `name=value`. */
  function Format(cookies: seq<Cookie>): (r: string)
    ensures r == "" <==> KeptCookies(cookies) == []
    ensures KeptCookies(cookies) != [] ==> Render(KeptCookies(cookies)[0]) <= r
  {
    Join(RenderAll(KeptCookies(cookies)), "; ")
  }

  /** Filtering works cookie by cookie, so the kept cookies keep their order. */
  lemma {:induction false} KeptCookiesAppend(a: seq<Cookie>, b: seq<Cookie>)
    ensures KeptCookies(a + b) == KeptCookies(a) + KeptCookies(b)
  {
    if a == [] {
      assert a + b == b;
    } else {
      assert (a + b)[1..] == a[1..] + b;
      KeptCookiesAppend(a[1..], b);
    }
  }

  /** A cookie without a domain, or with one that does not mention
      `zeabur.com`, is never formatted; every `.zeabur.com` cookie is. */
  lemma KeptDomains(c: Cookie)
    ensures c.domain == "" ==> !Kept(c)
    ensures c.domain == CookieDomain ==> Kept(c)
  {
  }

  /** Every well-formed cookie (in particular every parsed one) is kept. */
  lemma {:induction false} KeptWellFormed(cookies: seq<Cookie>)
    requires forall k :: 0 <= k < |cookies| ==> WellFormed(cookies[k])
    ensures KeptCookies(cookies) == cookies
  {
    if cookies != [] {
      KeptDomains(cookies[0]);
      KeptWellFormed(cookies[1..]);
    }
  }

  /** Each rendered cookie after the first is preceded by a space. */
  function Spaced(parts: seq<string>): (r: seq<string>)
    ensures |r| == |parts|
    ensures forall k :: 0 <= k < |r| ==> r[k] == " " + parts[k]
  {
    if parts == [] then [] else [" " + parts[0]] + Spaced(parts[1..])
  }

  /** Joining with `"; "` is joining with `";"` after putting a space in front
      of every part but the first. */
  lemma {:induction false} JoinSemicolonSpace(parts: seq<string>)
    requires |parts| >= 1
    ensures Join(parts, "; ") == Join([parts[0]] + Spaced(parts[1..]), ";")
  {
    var spaced := [parts[0]] + Spaced(parts[1..]);
    if |parts| == 1 {
      assert spaced == [parts[0]];
    } else {
      var rest := parts[1..];
      JoinSemicolonSpace(rest);
      var restSpaced := [rest[0]] + Spaced(rest[1..]);
      assert Spaced(rest) == [" " + rest[0]] + Spaced(rest[1..]);
      assert spaced[1..] == Spaced(rest);
      LeadingSpaceJoin(restSpaced, ";");
      assert [" " + restSpaced[0]] + restSpaced[1..] == Spaced(rest);
      assert Join(parts, "; ") == parts[0] + "; " + Join(rest, "; ");
      assert Join(spaced, ";") == parts[0] + ";" + Join(Spaced(rest), ";");
      assert parts[0] + "; " + Join(rest, "; ") == parts[0] + ";" + (" " + Join(rest, "; "));
    }
  }

  lemma LeadingSpaceJoin(parts: seq<string>, sep: string)
    requires |parts| >= 1
    ensures " " + Join(parts, sep) == Join([" " + parts[0]] + parts[1..], sep)
  {
  }

  /** A well-formed cookie after any run of whitespace parses back to itself. */
  lemma {:induction false} ParseRendered(w: string, c: Cookie)
    requires AllSpace(w) && WellFormed(c)
    ensures ParseSegment(w + Render(c)) == Some(c)
  {
    var segment := w + Render(c);
    var k := |w| + |c.name|;
    assert segment == (w + c.name) + "=" + c.value;
    assert segment[..k] == w + c.name;
    assert segment[k + 1..] == c.value;
    assert '=' !in segment[..k] by {
      assert forall i :: 0 <= i < |w| ==> segment[..k][i] == w[i];
      assert forall i :: |w| <= i < k ==> segment[..k][i] == c.name[i - |w|];
    }
    ParseSegmentReference(segment, k);
    StripAfterSpace(w, c.name);
    StripStripped(c.name);
    StripStripped(c.value);
  }

  lemma {:induction false} ParseSpacedRendered(cookies: seq<Cookie>)
    requires forall k :: 0 <= k < |cookies| ==> WellFormed(cookies[k])
    ensures ParseSegments(Spaced(RenderAll(cookies))) == cookies
  {
    if cookies != [] {
      var spaced := Spaced(RenderAll(cookies));
      assert spaced[1..] == Spaced(RenderAll(cookies[1..]));
      assert AllSpace(" ") by { assert IsSpace(" "[0]); }
      ParseRendered(" ", cookies[0]);
      ParseSpacedRendered(cookies[1..]);
    }
  }

  /** Round trip: formatting well-formed cookies and parsing the result gives
      the same cookies back, in the same order. */
  lemma {:induction false} ParseFormat(cookies: seq<Cookie>)
    requires forall k :: 0 <= k < |cookies| ==> WellFormed(cookies[k])
    ensures Parse(Format(cookies)) == cookies
  {
    KeptWellFormed(cookies);
    if cookies != [] {
      var parts := RenderAll(cookies);
      FormatPieces(cookies);
      assert AllSpace("");
      ParseRendered("", cookies[0]);
      assert "" + Render(cookies[0]) == parts[0];
      ParseSegmentsAppend([parts[0]], Spaced(parts[1..]));
      assert parts[1..] == RenderAll(cookies[1..]);
      ParseSpacedRendered(cookies[1..]);
    }
  }

  /** The `;`-separated segments of a non-empty formatted string: the first
      rendered cookie, then each further one after a space. */
  lemma {:induction false} FormatPieces(cookies: seq<Cookie>)
    requires cookies != []
    requires forall k :: 0 <= k < |cookies| ==> WellFormed(cookies[k])
    requires KeptCookies(cookies) == cookies
    ensures Split(Format(cookies), ';') == [RenderAll(cookies)[0]] + Spaced(RenderAll(cookies)[1..])
  {
    var parts := RenderAll(cookies);
    var pieces := [parts[0]] + Spaced(parts[1..]);
    FormatAsPieces(cookies);
    PiecesWithoutSemicolon(cookies);
    SplitJoin(pieces, ';');
  }

  lemma {:induction false} FormatAsPieces(cookies: seq<Cookie>)
    requires cookies != []
    requires KeptCookies(cookies) == cookies
    ensures Format(cookies) == Join([RenderAll(cookies)[0]] + Spaced(RenderAll(cookies)[1..]), [';'])
  {
    JoinSemicolonSpace(RenderAll(cookies));
    assert [';'] == ";";
  }

  lemma {:induction false} PiecesWithoutSemicolon(cookies: seq<Cookie>)
    requires cookies != []
    requires forall k :: 0 <= k < |cookies| ==> WellFormed(cookies[k])
    ensures forall k :: 0 <= k < |cookies| ==>
              ';' !in ([RenderAll(cookies)[0]] + Spaced(RenderAll(cookies)[1..]))[k]
  {
    var parts := RenderAll(cookies);
    var pieces := [parts[0]] + Spaced(parts[1..]);
    forall k | 0 <= k < |cookies| ensures ';' !in pieces[k] {
      var c := cookies[k];
      assert Render(c) == c.name + "=" + c.value;
      assert k > 0 ==> pieces[k] == " " + parts[k];
    }
  }

  /** Formatting the parsed cookies keeps every one of them. */
  lemma {:induction false} FormatKeepsParsed(cookieString: string)
    ensures KeptCookies(Parse(cookieString)) == Parse(cookieString)
  {
    KeptWellFormed(Parse(cookieString));
  }

  /** Parsing a formatted cookie string is idempotent: formatting the parsed
      cookies and parsing again gives the same cookies. */
  lemma {:induction false} ParseFormatParse(cookieString: string)
    ensures Parse(Format(Parse(cookieString))) == Parse(cookieString)
  {
    ParseFormat(Parse(cookieString));
  }
}

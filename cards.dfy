/** Field extraction from one business card of a category listing page. */
module Cards {
  import opened Wrappers
  import opened Text

  /** The sentinel for a missing name, location or contact field. */
  const Unknown := "Unknown"
  /** The sentinel for a missing rating summary. */
  const NoScore := "TrustScore 0 | 0 reviews"
  /** The path segment stripped from a card's link to get the domain. */
  const ReviewPath := "/review/"
  /** The site the card links are relative to. */
  const SiteRoot := "https://trustpilot.com"

  /** A business card as the parser sees it: the text of the name, rating
      and location elements when they exist, and the link's `href`
      attribute when it is set. */
  datatype Card = Card(
    name: Option<string>,
    score: Option<string>,
    location: Option<string>,
    href: Option<string>)

  /** The fields extracted from one card. */
  datatype CardInfo = CardInfo(
    name: string,
    score: string,
    location: string,
    domain: string,
    url: string)

  /** The stripped text of an element, or the sentinel when the element is
      missing (the `.text` on `None` raises `AttributeError`, which is
      caught field by field). */
  function TextOr(element: Option<string>, sentinel: string): string {
    match element
    case Some(t) => Strip(t)
    case None => sentinel
  }

  /** The domain slug: the link target with every `/review/` removed. */
  function Domain(href: string): string {
    Replace(href, ReviewPath, "")
  }

  /** Extracts the fields of one card; a missing `href` reads as `""`. */
  function ExtractCard(c: Card): CardInfo {
    var href := c.href.GetOr("");
    CardInfo(
      TextOr(c.name, Unknown),
      TextOr(c.score, NoScore),
      TextOr(c.location, Unknown),
      Domain(href),
      SiteRoot + href)
  }

  /** A missing element yields its sentinel; a missing link yields an empty
      domain and the bare site URL; the URL is always the site root followed
      by the link target. */
  lemma ExtractCardFallbacks(c: Card)
    ensures var r := ExtractCard(c);
      && (c.name.None? ==> r.name == Unknown)
      && (c.score.None? ==> r.score == NoScore)
      && (c.location.None? ==> r.location == Unknown)
      && (c.href.None? ==> r.domain == "" && r.url == SiteRoot)
      && StartsWith(r.url, SiteRoot) && r.url[|SiteRoot|..] == c.href.GetOr("")
  {
  }

  /** Each field depends on its own element alone: two cards that agree on
      an element agree on the field drawn from it, whatever their other
      elements hold. */
  lemma FieldsIndependent(c: Card, d: Card)
    ensures c.name == d.name ==> ExtractCard(c).name == ExtractCard(d).name
    ensures c.score == d.score ==> ExtractCard(c).score == ExtractCard(d).score
    ensures c.location == d.location ==> ExtractCard(c).location == ExtractCard(d).location
    ensures c.href == d.href ==>
      ExtractCard(c).domain == ExtractCard(d).domain && ExtractCard(c).url == ExtractCard(d).url
  {
  }

  /** A present element yields its own text with only surrounding
      whitespace cut, never the sentinel unless that is the text itself: the
      result sits in the element text with nothing but whitespace around it
      and neither starts nor ends with whitespace. */
  lemma PresentTextIsStripped(element: Option<string>, sentinel: string)
    requires element.Some?
    ensures StrippedOf(element.value, TextOr(element, sentinel))
  {
    StripFramed(element.value);
    StripEnds(element.value);
  }

  /** Each of the name, rating and location fields of a card whose element
      is present is that element's text stripped of surrounding whitespace:
      it sits in the text with only whitespace around it and neither starts
      nor ends with whitespace. */
  lemma PresentFieldsAreStrippedText(c: Card)
    ensures c.name.Some? ==> StrippedOf(c.name.value, ExtractCard(c).name)
    ensures c.score.Some? ==> StrippedOf(c.score.value, ExtractCard(c).score)
    ensures c.location.Some? ==> StrippedOf(c.location.value, ExtractCard(c).location)
  {
    if c.name.Some? {
      assert ExtractCard(c).name == TextOr(c.name, Unknown);
      PresentTextIsStripped(c.name, Unknown);
    }
    if c.score.Some? {
      assert ExtractCard(c).score == TextOr(c.score, NoScore);
      PresentTextIsStripped(c.score, NoScore);
    }
    if c.location.Some? {
      assert ExtractCard(c).location == TextOr(c.location, Unknown);
      PresentTextIsStripped(c.location, Unknown);
    }
  }

  /** The domain is never longer than the link, and a link without
      `/review/` is its own domain. */
  lemma DomainOfLink(href: string)
    ensures |Domain(href)| <= |href|
    ensures !Contains(href, ReviewPath) ==> Domain(href) == href
  {
    RemoveShortens(href, ReviewPath);
    if !Contains(href, ReviewPath) {
      ReplaceWithoutPattern(href, ReviewPath, "");
    }
  }

  /** The usual link `/review/<slug>` yields the slug as domain and the
      review page as URL. */
  lemma {:induction false} ReviewLinkDomain(slug: string)
    requires !Contains(slug, ReviewPath)
    ensures ExtractCard(Card(None, None, None, Some(ReviewPath + slug))).domain == slug
    ensures ExtractCard(Card(None, None, None, Some(ReviewPath + slug))).url
         == SiteRoot + ReviewPath + slug
  {
    ReplaceLeading(ReviewPath, "", slug);
    ReplaceWithoutPattern(slug, ReviewPath, "");
    assert "" + slug == slug;
  }

  /** The link `/review/p0/review/p1.../review/pn` followed by `tail`. */
  function ReviewLinks(pieces: seq<string>, tail: string): string {
    if pieces == [] then tail else ReviewPath + pieces[0] + ReviewLinks(pieces[1..], tail)
  }

  /** The pieces run together, followed by `tail`. */
  function Joined(pieces: seq<string>, tail: string): string {
    if pieces == [] then tail else pieces[0] + Joined(pieces[1..], tail)
  }

  /** Every occurrence is removed, not only the first: a link made of
      `/`-free pieces each preceded by `/review/`, and a tail without
      `/review/`, gives the pieces and the tail run together. */
  lemma {:induction false} DomainRemovesEveryOccurrence(pieces: seq<string>, tail: string)
    requires forall i :: 0 <= i < |pieces| ==> '/' !in pieces[i]
    requires !Contains(tail, ReviewPath)
    ensures Domain(ReviewLinks(pieces, tail)) == Joined(pieces, tail)
    decreases |pieces|
  {
    if pieces == [] {
      ReplaceWithoutPattern(tail, ReviewPath, "");
    } else {
      var a := pieces[0];
      var rest := ReviewLinks(pieces[1..], tail);
      assert ReviewLinks(pieces, tail) == ReviewPath + (a + rest);
      calc {
        Replace(ReviewPath + (a + rest), ReviewPath, "");
        { ReplaceLeading(ReviewPath, "", a + rest); }
        "" + Replace(a + rest, ReviewPath, "");
        { ReplaceAfterPlain(a, rest); }
        "" + (a + Replace(rest, ReviewPath, ""));
        { DomainRemovesEveryOccurrence(pieces[1..], tail); }
        "" + (a + Joined(pieces[1..], tail));
      }
    }
  }

  /** Removing the `/review/` between two `/`-free words keeps the slashes
      around them; the first word must not be `review`, which would put a
      `/review/` at the very start of the link. */
  lemma {:induction false} RemoveBetweenWords(a: string, b: string)
    requires '/' !in a && '/' !in b && a != "review"
    ensures Domain("/" + a + ReviewPath + b + "/") == "/" + a + b + "/"
  {
    var rest := ReviewPath + (b + "/");
    var s := "/" + (a + rest);
    assert "/" + a + ReviewPath + b + "/" == s;
    assert !StartsWith(s, ReviewPath) by {
      if |a| < 6 {
        assert s[|a| + 1] == '/' != ReviewPath[|a| + 1];
      } else if |a| == 6 {
        assert s[1..7] == a != ReviewPath[1..7];
      } else {
        assert s[7] == a[6] != '/';
      }
    }
    assert s[1..] == a + rest;
    assert !StartsWith("/", ReviewPath);
    assert "/"[1..] == [];
    calc {
      Replace(s, ReviewPath, "");
      "/" + Replace(a + rest, ReviewPath, "");
      { ReplaceAfterPlain(a, rest); }
      "/" + (a + Replace(rest, ReviewPath, ""));
      { ReplaceLeading(ReviewPath, "", b + "/"); }
      "/" + (a + ("" + Replace(b + "/", ReviewPath, "")));
      { ReplaceAfterPlain(b, "/"); }
      "/" + (a + ("" + (b + Replace("/", ReviewPath, ""))));
      "/" + a + b + "/";
    }
  }

  /** Removal is a single pass, so it can assemble a new `/review/` out of
      the pieces around a removed one. */
  lemma RemovalCanRebuildPattern()
    ensures Domain("/rev/review/iew/") == ReviewPath
  {
    RemoveBetweenWords("rev", "iew");
    assert "/" + "rev" + ReviewPath + "iew" + "/" == "/rev/review/iew/";
    assert "/" + "rev" + "iew" + "/" == ReviewPath;
  }

  /** The pass copies a prefix without `/` unchanged and goes on with what
      follows it. */
  lemma {:induction false} ReplaceAfterPlain(a: string, t: string)
    requires '/' !in a
    ensures Replace(a + t, ReviewPath, "") == a + Replace(t, ReviewPath, "")
    decreases |a|
  {
    if a == [] {
      assert a + t == t;
    } else {
      var s := a + t;
      assert s[0] == a[0] && a[0] in a;
      assert s[0] != ReviewPath[0];
      assert s[1..] == a[1..] + t;
      ReplaceAfterPlain(a[1..], t);
      assert a == [a[0]] + a[1..];
    }
  }
}

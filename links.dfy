/**
 * `get_quotes_links`: the anchors of the market summary page that lead to a
 * per-symbol quote page, in document order. An anchor is modelled by its
 * optional `href` attribute and by the text of the table row that holds it
 * (what `link.parent.parent.get_text()` returns).
 */
module Links {
  import opened Wrappers
  import opened Text

  const QuotePathPrefix: string := "/C13_FastQuote_Main.jsp"

  datatype Anchor = Anchor(href: Option<string>, rowText: string)

  /** `link.has_attr('href') and link.attrs['href'].startswith(...)` */
  predicate IsQuoteLink(a: Anchor) {
    a.href.Some? && StartsWith(a.href.value, QuotePathPrefix)
  }

  /** The links the generator yields, as a sequence. */
  function QuoteLinks(anchors: seq<Anchor>): seq<Anchor> {
    if |anchors| == 0 then []
    else (if IsQuoteLink(anchors[0]) then [anchors[0]] else []) + QuoteLinks(anchors[1..])
  }

  /** Every yielded anchor is a quote link taken from the page, and every quote link is yielded. */
  lemma {:induction false} QuoteLinksMembers(anchors: seq<Anchor>)
    ensures forall a :: a in QuoteLinks(anchors) <==> a in anchors && IsQuoteLink(a)
  {
    if |anchors| > 0 {
      QuoteLinksMembers(anchors[1..]);
      assert anchors == [anchors[0]] + anchors[1..];
    }
  }

  /** The filter keeps document order: the links of a page split in two are those of each part, in turn. */
  lemma {:induction false} QuoteLinksAppend(xs: seq<Anchor>, ys: seq<Anchor>)
    ensures QuoteLinks(xs + ys) == QuoteLinks(xs) + QuoteLinks(ys)
  {
    if |xs| == 0 {
      assert xs + ys == ys;
    } else {
      var head := if IsQuoteLink(xs[0]) then [xs[0]] else [];
      QuoteLinksAppend(xs[1..], ys);
      assert (xs + ys)[0] == xs[0] && (xs + ys)[1..] == xs[1..] + ys;
      calc {
        QuoteLinks(xs + ys);
        head + QuoteLinks(xs[1..] + ys);
        head + (QuoteLinks(xs[1..]) + QuoteLinks(ys));
        (head + QuoteLinks(xs[1..])) + QuoteLinks(ys);
      }
    }
  }

  /** Filtering the links once more changes nothing. */
  lemma {:induction false} QuoteLinksIdempotent(anchors: seq<Anchor>)
    ensures QuoteLinks(QuoteLinks(anchors)) == QuoteLinks(anchors)
  {
    if |anchors| > 0 {
      QuoteLinksIdempotent(anchors[1..]);
      var head := if IsQuoteLink(anchors[0]) then [anchors[0]] else [];
      QuoteLinksAppend(head, QuoteLinks(anchors[1..]));
      if IsQuoteLink(anchors[0]) {
        assert QuoteLinks(head) == head by { assert head[1..] == []; }
      }
    }
  }

  /** The generator loop: walks the anchors in order and collects the quote links. */
  method GetQuotesLinks(anchors: seq<Anchor>) returns (links: seq<Anchor>)
    ensures links == QuoteLinks(anchors)
  {
    links := [];
    for i := 0 to |anchors|
      invariant links == QuoteLinks(anchors[..i])
    {
      var link := anchors[i];
      if link.href.Some? {
        if StartsWith(link.href.value, QuotePathPrefix) {
          links := links + [link];
        }
      }
      QuoteLinksAppend(anchors[..i], [link]);
      assert anchors[..i + 1] == anchors[..i] + [link];
    }
    assert anchors[..|anchors|] == anchors;
  }
}

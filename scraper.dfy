/** The scrape pipeline of `ArticleScraper`: fetching with retries, link discovery on the blog
    listing, extraction of one article and the final filter. HTTP traffic and the parsed DOM are
    abstract inputs: a network that answers each numbered request, and pages reduced to the
    nodes the selectors find. */
module Scraper {
  import opened Wrappers
  import opened Seqs
  import opened Text

  const BaseUrl: string := "https://beyondchats.com/blogs/"
  const DefaultLimit: int := 5
  /** `config('app.scraper_max_retries', 3)`. */
  const DefaultMaxRetries: int := 3
  /** Tried in this order; the first one that finds a node supplies the content. */
  const ContentSelectors: seq<string> :=
    ["article", "[role=\"main\"]", ".post-content", ".article-content", ".entry-content"]
  const BodySelector: string := "body"
  /** The characters other than letters, digits and whitespace that `cleanContent` keeps. */
  const KeptPunctuation: set<char> := {'.', ',', '!', '?', '-'}
  /** What DomCrawler throws when an attribute or the text of an empty node list is asked for. */
  const EmptyNodeList: string := "The current node list is empty."

  // ---------------------------------------------------------------- fetching

  /** What one HTTP request gives: a parsed page, a Guzzle `RequestException` (which is retried)
      or any other exception (which is not). */
  datatype Attempt<T> = Received(page: T) | RequestError(message: string) | OtherError(message: string)

  /** The network, given: the outcome of the `n`-th request (counted from 1) for a URL. */
  type Network<T> = (string, nat) -> Attempt<T>

  /** The result of `fetchWithRetry`: the response, or the failure that escapes it; the number of
      requests sent; the seconds slept in total. */
  datatype Fetch<T> = Fetch(outcome: Attempt<T>, requests: nat, waited: nat)

  function Pow2(n: nat): nat {
    if n == 0 then 1 else 2 * Pow2(n - 1)
  }

  /** `fetchWithRetry($url, $attempt)`, as the recursion the source writes. */
  function RetryFrom<T>(net: Network<T>, url: string, maxRetries: int, attempt: nat): (f: Fetch<T>)
    requires attempt >= 1
    ensures 1 <= f.requests <= Max(1, maxRetries - attempt + 1)
    decreases maxRetries - attempt
  {
    var o := net(url, attempt);
    if o.RequestError? && attempt < maxRetries then
      var rest := RetryFrom(net, url, maxRetries, attempt + 1);
      Fetch(rest.outcome, rest.requests + 1, rest.waited + Pow2(attempt))
    else
      Fetch(o, 1, 0)
  }

  /** Starting at attempt `a`, the fetch sends requests `a` to `last`, at most up to attempt
      `maxRetries` (and at least one); every request before `last` failed with a
      `RequestException`; the result is the outcome of request `last`, which is a failure of that
      kind only if no attempt was left; and after each failed attempt `k` it slept `2^k`. */
  lemma {:induction false} RetryCharacterized<T>(net: Network<T>, url: string, maxRetries: int, a: nat)
    requires a >= 1
    ensures var f := RetryFrom(net, url, maxRetries, a);
            var last := a + f.requests - 1;
            && f.requests >= 1
            && last <= Max(a, maxRetries)
            && (forall k :: a <= k < last ==> net(url, k).RequestError?)
            && f.outcome == net(url, last)
            && (f.outcome.RequestError? ==> last >= maxRetries)
            && f.waited + Pow2(a) == Pow2(last)
    decreases maxRetries - a
  {
    var o := net(url, a);
    if o.RequestError? && a < maxRetries {
      RetryCharacterized(net, url, maxRetries, a + 1);
    }
  }

  /** A fetch that fails three times with `maxRetries` = 3 sleeps 2 + 4 seconds and gives up after
      the third request with that request's failure. */
  lemma ThreeFailuresWaitSix<T>(net: Network<T>, url: string)
    requires forall k :: 1 <= k <= 3 ==> net(url, k).RequestError?
    ensures var f := RetryFrom(net, url, 3, 1);
            f.requests == 3 && f.waited == 6 && f.outcome == net(url, 3)
  {
    RetryCharacterized(net, url, 3, 1);
    var f := RetryFrom(net, url, 3, 1);
    assert Pow2(3) == 8;
  }

  /** `fetchWithRetry`, with the recursion turned into a loop over the attempt counter. */
  method FetchWithRetry<T>(net: Network<T>, url: string, maxRetries: int)
    returns (outcome: Attempt<T>, requests: nat, waited: nat)
    ensures Fetch(outcome, requests, waited) == RetryFrom(net, url, maxRetries, 1)
  {
    var attempt: nat := 1;
    waited := 0;
    outcome := net(url, attempt);
    while outcome.RequestError? && attempt < maxRetries
      invariant attempt >= 1
      invariant outcome == net(url, attempt)
      invariant var rest := RetryFrom(net, url, maxRetries, attempt);
                RetryFrom(net, url, maxRetries, 1) == Fetch(rest.outcome, rest.requests + attempt - 1, rest.waited + waited)
      decreases maxRetries - attempt
    {
      waited := waited + Pow2(attempt);  // sleep(2 ** $attempt)
      attempt := attempt + 1;
      outcome := net(url, attempt);
    }
    requests := attempt;
  }

  // ---------------------------------------------------------------- the listing page

  /** A node the card selector `article, .blog-post, .post-card, [data-article]` matched: its own
      `href` attribute, and the `href` attributes of the nodes `filter('a')` finds from it, in
      document order. That filter searches descendant-or-self, so an anchor node comes first in
      its own list. */
  datatype Element = Element(href: Option<string>, anchorHrefs: seq<Option<string>>)

  /** The parsed listing: the card nodes, and the `href` attribute of every anchor of the page
      (`None` for an anchor without one), both in document order. */
  datatype ListingPage = ListingPage(cards: seq<Element>, anchorHrefs: seq<Option<string>>)

  /** `a[href*="/blogs/"]` followed by the `reduce` callback. */
  predicate FallbackKeeps(href: string) {
    Contains(href, "/blogs/") && Truthy(href) && !Contains(href, "category") && !Contains(href, "feed")
  }

  function FallbackAnchors(hrefs: seq<Option<string>>): seq<string> {
    if hrefs == [] then []
    else (if hrefs[0].Some? && FallbackKeeps(hrefs[0].value) then [hrefs[0].value] else [])
         + FallbackAnchors(hrefs[1..])
  }

  /** The fallback keeps exactly the anchors whose `href` is present, truthy, points into
      `/blogs/` and mentions neither `category` nor `feed`, each as often as it occurs. */
  lemma {:induction false} FallbackAnchorsExact(hrefs: seq<Option<string>>)
    ensures forall h :: h in FallbackAnchors(hrefs) <==> Some(h) in hrefs && FallbackKeeps(h)
    ensures forall h :: FallbackKeeps(h) ==> multiset(FallbackAnchors(hrefs))[h] == multiset(hrefs)[Some(h)]
  {
    if hrefs != [] {
      FallbackAnchorsExact(hrefs[1..]);
      assert hrefs == [hrefs[0]] + hrefs[1..];
    }
  }

  /** The fallback works anchor by anchor, so the kept anchors stay in document order. */
  lemma {:induction false} FallbackAnchorsAppend(a: seq<Option<string>>, b: seq<Option<string>>)
    ensures FallbackAnchors(a + b) == FallbackAnchors(a) + FallbackAnchors(b)
    decreases |a|
  {
    if a == [] {
      assert a + b == b;
    } else {
      assert (a + b)[0] == a[0] && (a + b)[1..] == a[1..] + b;
      FallbackAnchorsAppend(a[1..], b);
    }
  }

  /** The nodes the links are read from: the cards, or the fallback anchors when there is no card. */
  function ArticleElements(page: ListingPage): seq<Element> {
    if |page.cards| > 0 then page.cards
    else
      var kept := FallbackAnchors(page.anchorHrefs);
      seq(|kept|, i requires 0 <= i < |kept| => Element(Some(kept[i]), [Some(kept[i])]))
  }

  /** `$node->attr('href') ?? $node->filter('a')->attr('href')`: the second `attr` reads the first
      node `filter('a')` finds and throws when it finds none. */
  function LinkOf(e: Element): Result<Option<string>, string> {
    if e.href.Some? then Ok(e.href)
    else if e.anchorHrefs == [] then Err(EmptyNodeList)
    else Ok(e.anchorHrefs[0])
  }

  lemma JoinShape(stem: string, rest: string)
    ensures var r := stem + "/" + rest;
            |r| == |stem| + 1 + |rest| && r[..|stem|] == stem && r[|stem|] == '/' && r[|stem| + 1..] == rest
  {
  }

  /** A link starting with `http` is kept as it is; any other one is joined to the base with the
      base's trailing slashes and the link's leading slashes removed and one slash between. */
  function ResolveLink(base: string, link: string): (r: string)
    ensures StartsWith(link, "http") ==> r == link
    ensures !StartsWith(link, "http") ==>
              var stem := TrimRight(base, {'/'});
              && |r| > |stem| && r[..|stem|] == stem && r[|stem|] == '/'
              && (stem == [] || stem[|stem| - 1] != '/')
              && var rest := r[|stem| + 1..];
                 && (rest == [] || rest[0] != '/')
                 && |rest| <= |link| && link[|link| - |rest|..] == rest
                 && (forall i :: 0 <= i < |link| - |rest| ==> link[i] == '/')
  {
    if StartsWith(link, "http") then link
    else
      var stem := TrimRight(base, {'/'});
      var rest := TrimLeft(link, {'/'});
      JoinShape(stem, rest);
      stem + "/" + rest
  }

  /** What one node adds to the link list: nothing for a missing or falsy link. */
  function LinkEntry(base: string, link: Option<string>): seq<string> {
    if link.Some? && Truthy(link.value) then [ResolveLink(base, link.value)] else []
  }

  /** The `each` callback over all nodes: the first node without a readable link aborts the walk. */
  function Links(base: string, elements: seq<Element>): (r: Result<seq<string>, string>)
    ensures r.Ok? ==> |r.value| <= |elements|
  {
    if elements == [] then Ok([])
    else match LinkOf(elements[0])
      case Err(e) => Err(e)
      case Ok(link) =>
        match Links(base, elements[1..])
        case Err(e) => Err(e)
        case Ok(rest) => Ok(LinkEntry(base, link) + rest)
  }

  /** The walk fails exactly when some node has no `href` and `filter('a')` finds nothing from it
      (it is no anchor and holds none); otherwise
      the list holds exactly the resolved truthy links of the nodes. */
  lemma {:induction false} LinksCorrect(base: string, elements: seq<Element>)
    ensures Links(base, elements).Err? <==> exists i :: 0 <= i < |elements| && LinkOf(elements[i]).Err?
    ensures Links(base, elements).Ok? ==>
              forall x :: x in Links(base, elements).value <==>
                exists i :: 0 <= i < |elements| && LinkOf(elements[i]).Ok? && x in LinkEntry(base, LinkOf(elements[i]).value)
  {
    if elements != [] {
      LinksCorrect(base, elements[1..]);
      forall i | 1 <= i < |elements| ensures elements[i] == elements[1..][i - 1] { }
      if Links(base, elements[1..]).Ok? && LinkOf(elements[0]).Ok? {
        var rest := Links(base, elements[1..]).value;
        forall x | x in Links(base, elements).value
          ensures exists i :: 0 <= i < |elements| && LinkOf(elements[i]).Ok? && x in LinkEntry(base, LinkOf(elements[i]).value)
        {
          if x !in LinkEntry(base, LinkOf(elements[0]).value) {
            assert x in rest;
            var i :| 0 <= i < |elements[1..]| && LinkOf(elements[1..][i]).Ok? && x in LinkEntry(base, LinkOf(elements[1..][i]).value);
            assert elements[1..][i] == elements[i + 1];
          }
        }
      }
    }
  }

  function Prepend(p: seq<string>, r: Result<seq<string>, string>): Result<seq<string>, string> {
    match r
    case Ok(rest) => Ok(p + rest)
    case Err(e) => Err(e)
  }

  lemma PrependNothing(r: Result<seq<string>, string>)
    ensures Prepend([], r) == r
  {
    if r.Ok? {
      assert [] + r.value == r.value;
    }
  }

  lemma PrependTwice(p: seq<string>, q: seq<string>, r: Result<seq<string>, string>)
    ensures Prepend(p, Prepend(q, r)) == Prepend(p + q, r)
  {
    if r.Ok? {
      assert p + (q + r.value) == (p + q) + r.value;
    }
  }

  /** One node of the walk: a readable link is prepended to the rest of the walk. */
  lemma LinksStep(base: string, elements: seq<Element>)
    requires elements != [] && LinkOf(elements[0]).Ok?
    ensures Links(base, elements) == Prepend(LinkEntry(base, LinkOf(elements[0]).value), Links(base, elements[1..]))
  {
  }

  /** The `each` loop over the link nodes, appending to `$articleLinks`. */
  method ExtractLinks(base: string, elements: seq<Element>) returns (r: Result<seq<string>, string>)
    ensures r == Links(base, elements)
  {
    var links: seq<string> := [];
    var i := 0;
    assert elements[0..] == elements;
    PrependNothing(Links(base, elements));
    while i < |elements|
      invariant 0 <= i <= |elements|
      invariant Links(base, elements) == Prepend(links, Links(base, elements[i..]))
    {
      var link := LinkOf(elements[i]);
      assert elements[i..][0] == elements[i] && elements[i..][1..] == elements[i + 1..];
      if link.Err? {
        return Err(link.error);
      }
      LinksStep(base, elements[i..]);
      PrependTwice(links, LinkEntry(base, link.value), Links(base, elements[i + 1..]));
      links := links + LinkEntry(base, link.value);
      i := i + 1;
    }
    assert links + [] == links;
    r := Ok(links);
  }

  // ---------------------------------------------------------------- one article

  /** The first node matching `h1, .article-title, meta[property="og:title"]` in document order:
      a `meta` node (whose `content` attribute may be missing) or any other node with its text. */
  datatype TitleNode = Titled(text: string) | OgTitleMeta(content: Option<string>)

  /** The parsed article page: the nodes matching the title selector in document order, and for
      each selector that finds a node, the text of its first node (with `script`, `style` and
      `noscript` already removed). */
  datatype ArticlePage = ArticlePage(titleNodes: seq<TitleNode>, firstText: map<string, string>)

  datatype ScrapedArticle = ScrapedArticle(title: string, url: string, content: string, slug: string)

  /** `$titleText`; a `meta` node without `content` is read as "". */
  function TitleText(t: TitleNode): string {
    match t
    case OgTitleMeta(content) => if content.Some? then content.value else ""
    case Titled(text) => Trim(text, PhpTrimSet)
  }

  /** The whitespace step of `extractTextContent`. */
  function ExtractText(text: string): string {
    Trim(Collapse(text), PhpTrimSet)
  }

  predicate Kept(c: char, u: UnicodeClasses) {
    u.isLetter(c) || u.isNumber(c) || u.isSpace(c) || c in KeptPunctuation
  }

  /** `preg_replace('/[^\p{L}\p{N}\s\.\,\!\?\-]/u', '', $s)`. */
  function Strip(s: string, u: UnicodeClasses): (r: string)
    ensures |r| <= |s|
  {
    if s == [] then [] else (if Kept(s[0], u) then [s[0]] else []) + Strip(s[1..], u)
  }

  /** `cleanContent`: collapse whitespace, strip the other characters, trim. */
  function CleanContent(s: string, u: UnicodeClasses): (r: string)
    ensures Trimmed(r, PhpTrimSet)
  {
    var stripped := Strip(Collapse(s), u);
    Trim(stripped, PhpTrimSet)
  }

  lemma {:induction false} StripCorrect(s: string, u: UnicodeClasses)
    ensures forall c :: c in Strip(s, u) ==> Kept(c, u)
    ensures IsSubsequence(Strip(s, u), s)
  {
    if s != [] {
      StripCorrect(s[1..], u);
      var rest := Strip(s[1..], u);
      if Kept(s[0], u) {
        assert Strip(s, u) == [s[0]] + rest;
        assert Strip(s, u)[1..] == rest;
      } else {
        assert Strip(s, u) == rest;
      }
    }
  }

  /** Stripping keeps exactly the characters of the class, in order, and drops the rest. */
  lemma {:induction false} StripIsFilter(s: string, u: UnicodeClasses)
    ensures Strip(s, u) == Filter(s, (c: char) => Kept(c, u))
  {
    if s != [] {
      StripIsFilter(s[1..], u);
    }
  }

  /** `Strip` distributes over concatenation. */
  lemma {:induction false} StripAppend(a: string, b: string, u: UnicodeClasses)
    ensures Strip(a + b, u) == Strip(a, u) + Strip(b, u)
    decreases |a|
  {
    if a != [] {
      var h := if Kept(a[0], u) then [a[0]] else [];
      assert (a + b)[0] == a[0] && (a + b)[1..] == a[1..] + b;
      StripAppend(a[1..], b, u);
      assert Strip(a + b, u) == h + Strip(a[1..] + b, u);
      assert Strip(a, u) == h + Strip(a[1..], u);
    } else {
      assert a + b == b;
    }
  }

  /** Removing whitespace and removing unkept characters can be done in either order. */
  lemma {:induction false} VisibleStrip(s: string, u: UnicodeClasses)
    ensures Visible(Strip(s, u)) == Strip(Visible(s), u)
    decreases |s|
  {
    if s != [] {
      VisibleStrip(s[1..], u);
      var h := if Kept(s[0], u) then [s[0]] else [];
      var v := if s[0] in PcreSpace then [] else [s[0]];
      assert Strip(s, u) == h + Strip(s[1..], u);
      VisibleAppend(h, Strip(s[1..], u));
      assert Visible(s) == v + Visible(s[1..]);
      StripAppend(v, Visible(s[1..]), u);
      if v != [] {
        assert v[1..] == [];
      }
      if h != [] {
        assert h[1..] == [];
      }
    }
  }

  /** Cleaning loses no character of the class other than whitespace: apart from whitespace,
      the cleaned text is exactly the input's letters, digits, non-ASCII spaces and `.,!?-`,
      in order. */
  lemma CleanKeepsKeptText(s: string, u: UnicodeClasses)
    requires AsciiAgrees(u)
    ensures Visible(CleanContent(s, u)) == Strip(Visible(s), u)
  {
    var stripped := Strip(Collapse(s), u);
    StripCorrect(Collapse(s), u);
    assert !Kept('\0', u);
    assert '\0' !in stripped;
    TrimKeepsVisible(stripped);
    VisibleStrip(Collapse(s), u);
    CollapseKeepsText(s);
  }

  /** The cleaned text holds only letters, digits, whitespace and `.,!?-`, has none of the
      characters `trim` removes at either end, and is a subsequence of the collapsed input. */
  lemma CleanContentCorrect(s: string, u: UnicodeClasses)
    ensures var r := CleanContent(s, u);
            && (forall c :: c in r ==> Kept(c, u))
            && Trimmed(r, PhpTrimSet)
            && IsSubsequence(r, Collapse(s))
  {
    var stripped := Strip(Collapse(s), u);
    StripCorrect(Collapse(s), u);
    TrimSlice(stripped, PhpTrimSet);
    var i, j :| 0 <= i <= j <= |stripped| && CleanContent(s, u) == stripped[i..j];
    SliceIsSubsequence(stripped, i, j);
    SubsequenceTransitive(CleanContent(s, u), stripped, Collapse(s));
    forall c | c in CleanContent(s, u) ensures Kept(c, u) {
      assert c in stripped;
    }
  }

  /** Collapsing `x ␠ z ␠ y`, whose only whitespace is single spaces, changes nothing. */
  lemma CollapseSpacedTriple(x: char, z: char, y: char)
    requires x !in PcreSpace && z !in PcreSpace && y !in PcreSpace
    ensures Collapse([x, ' ', z, ' ', y]) == [x, ' ', z, ' ', y]
  {
    var s := [x, ' ', z, ' ', y];
    assert Collapsed(s) by {
      assert ' ' in PcreSpace;
      assert s[0] == x && s[1] == ' ' && s[2] == z && s[3] == ' ' && s[4] == y;
    }
    CollapseFixesCollapsed(s);
  }

  /** Collapsing turns the two spaces of `x ␠␠ y` into one. */
  lemma CollapseDoubleSpace(x: char, y: char)
    requires x !in PcreSpace && y !in PcreSpace
    ensures Collapse([x, ' ', ' ', y]) == [x, ' ', y]
  {
    assert ' ' in PcreSpace;
    CollapseNoSpace([x]);
    CollapseNoSpace([y]);
    Displays(x, ' ', ' ', y, y);
    Displays(x, ' ', y, y, y);
    CollapseRun([x], [' ', ' '], [y]);
  }

  /** Stripping a removed character `z` from between two spaces leaves both spaces. */
  lemma StripSpacedTriple(x: char, z: char, y: char, u: UnicodeClasses)
    requires Kept(x, u) && !Kept(z, u) && Kept(y, u) && Kept(' ', u)
    ensures Strip([x, ' ', z, ' ', y], u) == [x, ' ', ' ', y]
  {
    var s := [x, ' ', z, ' ', y];
    assert s[1..] == [' ', z, ' ', y] && s[1..][1..] == [z, ' ', y] && [z, ' ', y][1..] == [' ', y];
    assert [' ', y][1..] == [y] && [y][1..] == [];
    assert Strip([y], u) == [y];
    assert Strip([' ', y], u) == [' ', y];
    assert Strip([z, ' ', y], u) == [' ', y];
  }

  /** Stripping keeps `x` and `y` separated by one or two spaces as they are. */
  lemma StripSpacedPair(x: char, y: char, u: UnicodeClasses)
    requires Kept(x, u) && Kept(y, u) && Kept(' ', u)
    ensures Strip([x, ' ', ' ', y], u) == [x, ' ', ' ', y]
    ensures Strip([x, ' ', y], u) == [x, ' ', y]
  {
    assert [x, ' ', ' ', y][1..] == [' ', ' ', y] && [' ', ' ', y][1..] == [' ', y];
    assert [x, ' ', y][1..] == [' ', y] && [' ', y][1..] == [y] && [y][1..] == [];
    assert Strip([y], u) == [y];
    assert Strip([' ', y], u) == [' ', y];
  }

  /** Stripping after collapsing can leave two spaces side by side, so cleaning the cleaned text
      again changes it: `cleanContent` is not idempotent. With ASCII letters for `x` and `y` and
      `@` for `z`, "a @ b" cleans to "a  b", which cleans to "a b". */
  lemma CleanContentNotIdempotent(x: char, z: char, y: char, u: UnicodeClasses)
    requires AsciiAgrees(u)
    requires Kept(x, u) && !Kept(z, u) && Kept(y, u)
    requires x !in PcreSpace && z !in PcreSpace && y !in PcreSpace
    requires x !in PhpTrimSet && y !in PhpTrimSet
    ensures CleanContent([x, ' ', z, ' ', y], u) == [x, ' ', ' ', y]
    ensures CleanContent(CleanContent([x, ' ', z, ' ', y], u), u) == [x, ' ', y]
    ensures CleanContent(CleanContent([x, ' ', z, ' ', y], u), u) != CleanContent([x, ' ', z, ' ', y], u)
  {
    SpaceKept(u);
    CleanSpacedTriple(x, z, y, u);
    CleanDoubleSpace(x, y, u);
    assert |[x, ' ', y]| != |[x, ' ', ' ', y]|;
  }

  /** Cleaning `x z y` separated by single spaces, where only `z` is removed, leaves two spaces. */
  lemma CleanSpacedTriple(x: char, z: char, y: char, u: UnicodeClasses)
    requires Kept(x, u) && !Kept(z, u) && Kept(y, u) && Kept(' ', u)
    requires x !in PcreSpace && z !in PcreSpace && y !in PcreSpace
    requires x !in PhpTrimSet && y !in PhpTrimSet
    ensures CleanContent([x, ' ', z, ' ', y], u) == [x, ' ', ' ', y]
  {
    var s, w := [x, ' ', z, ' ', y], [x, ' ', ' ', y];
    CollapseSpacedTriple(x, z, y);
    StripSpacedTriple(x, z, y, u);
    TrimUntouched(w, PhpTrimSet);
    CleanOfSteps(s, s, w, u);
  }

  /** `CleanContent` from the results of its three steps. */
  lemma CleanOfSteps(s: string, collapsed: string, w: string, u: UnicodeClasses)
    requires Collapse(s) == collapsed && Strip(collapsed, u) == w && Trim(w, PhpTrimSet) == w
    ensures CleanContent(s, u) == w
  {
  }

  /** Cleaning `x` and `y` separated by two spaces leaves one. */
  lemma CleanDoubleSpace(x: char, y: char, u: UnicodeClasses)
    requires AsciiAgrees(u)
    requires Kept(x, u) && Kept(y, u)
    requires x !in PcreSpace && y !in PcreSpace
    requires x !in PhpTrimSet && y !in PhpTrimSet
    ensures CleanContent([x, ' ', ' ', y], u) == [x, ' ', y]
  {
    SpaceKept(u);
    CollapseDoubleSpace(x, y);
    StripSpacedPair(x, y, u);
    TrimUntouched([x, ' ', y], PhpTrimSet);
  }

  /** With tables that agree with ASCII, the space character belongs to the kept class. */
  lemma SpaceKept(u: UnicodeClasses)
    requires AsciiAgrees(u)
    ensures Kept(' ', u)
  {
    assert ' ' in PcreSpace && ' ' < '\U{0080}';
  }

  /** The index of the first selector that finds a node, or `|selectors|` when none does. */
  function FirstExisting(found: map<string, string>, selectors: seq<string>): (k: nat)
    ensures k <= |selectors|
    ensures forall j :: 0 <= j < k ==> selectors[j] !in found
    ensures k < |selectors| ==> selectors[k] in found
  {
    if selectors == [] then 0
    else if selectors[0] in found then 0
    else 1 + FirstExisting(found, selectors[1..])
  }

  /** The text the content cascade selects: that of the first selector that finds a node, or "". */
  function SelectedText(page: ArticlePage): string {
    var k := FirstExisting(page.firstText, ContentSelectors);
    if k < |ContentSelectors| then ExtractText(page.firstText[ContentSelectors[k]]) else ""
  }

  /** The record `scrapeArticleContent` builds from a fetched page, or `None` where it throws. */
  function ExtractArticle(url: string, page: ArticlePage, u: UnicodeClasses, slug: string -> string): (r: Option<ScrapedArticle>)
    ensures r.Some? ==> page.titleNodes != [] && r.value.url == url
  {
    if page.titleNodes == [] then None  // nodeName() of an empty node list
    else
      var titleText := TitleText(page.titleNodes[0]);
      var selected := SelectedText(page);
      if Truthy(selected) then
        Some(ScrapedArticle(Trim(titleText, PhpTrimSet), url, CleanContent(selected, u), slug(titleText)))
      else if BodySelector in page.firstText then
        Some(ScrapedArticle(Trim(titleText, PhpTrimSet), url, CleanContent(ExtractText(page.firstText[BodySelector]), u), slug(titleText)))
      else None  // text() of an empty node list
  }

  /** `scrapeArticleContent($url)`: fetch, then extract; every failure gives `None`. */
  function ScrapeArticle(net: Network<ArticlePage>, url: string, maxRetries: int, u: UnicodeClasses, slug: string -> string): (r: Option<ScrapedArticle>)
    ensures r.Some? ==> r.value.url == url
  {
    var f := RetryFrom(net, url, maxRetries, 1);
    if f.outcome.Received? then ExtractArticle(url, f.outcome.page, u, slug) else None
  }

  /** The shape every extracted record has. */
  predicate WellShaped(a: ScrapedArticle, u: UnicodeClasses) {
    && (forall c :: c in a.content ==> Kept(c, u))
    && (a.content == [] || (a.content[0] !in PhpTrimSet && a.content[|a.content| - 1] !in PhpTrimSet))
    && (a.title == [] || (a.title[0] !in PhpTrimSet && a.title[|a.title| - 1] !in PhpTrimSet))
  }

  /** The extraction keeps the URL, trims the title, takes the content from the first content
      selector that finds a node and from the body only when that text is falsy, and cleans it;
      it fails exactly when there is no title node, or when the body is needed and missing. */
  lemma ExtractArticleCorrect(url: string, page: ArticlePage, u: UnicodeClasses, slug: string -> string)
    ensures var a := ExtractArticle(url, page, u, slug);
            && (a.None? <==> page.titleNodes == [] || (!Truthy(SelectedText(page)) && BodySelector !in page.firstText))
            && (a.Some? ==>
                  && a.value.url == url
                  && a.value.title == Trim(TitleText(page.titleNodes[0]), PhpTrimSet)
                  && a.value.slug == slug(TitleText(page.titleNodes[0]))
                  && (Truthy(SelectedText(page)) ==> a.value.content == CleanContent(SelectedText(page), u))
                  && (!Truthy(SelectedText(page)) ==> a.value.content == CleanContent(ExtractText(page.firstText[BodySelector]), u))
                  && WellShaped(a.value, u))
  {
    if page.titleNodes != [] {
      var titleText := TitleText(page.titleNodes[0]);
      var text := if Truthy(SelectedText(page)) then SelectedText(page) else if BodySelector in page.firstText then ExtractText(page.firstText[BodySelector]) else "";
      CleanContentCorrect(text, u);
    }
  }

  /** A scraped record carries the URL it was fetched from and is in cleaned shape. */
  lemma ScrapeArticleShape(net: Network<ArticlePage>, url: string, maxRetries: int, u: UnicodeClasses, slug: string -> string)
    ensures var a := ScrapeArticle(net, url, maxRetries, u, slug);
            a.Some? ==> a.value.url == url && WellShaped(a.value, u)
  {
    var f := RetryFrom(net, url, maxRetries, 1);
    if f.outcome.Received? {
      ExtractArticleCorrect(url, f.outcome.page, u, slug);
    }
  }

  /** The content-selector loop with its `break`: the text of the first selector that finds a node. */
  method SelectContent(page: ArticlePage) returns (content: string)
    ensures content == SelectedText(page)
  {
    content := "";
    var i := 0;
    while i < |ContentSelectors|
      invariant 0 <= i <= |ContentSelectors|
      invariant forall j :: 0 <= j < i ==> ContentSelectors[j] !in page.firstText
      invariant content == ""
    {
      if ContentSelectors[i] in page.firstText {
        content := ExtractText(page.firstText[ContentSelectors[i]]);
        break;
      }
      i := i + 1;
    }
    assert FirstExisting(page.firstText, ContentSelectors) == i;
  }

  /** `scrapeArticleContent`: fetch, read the title, select the content, fall back to the body. */
  method ScrapeArticleContent(net: Network<ArticlePage>, url: string, maxRetries: int, u: UnicodeClasses, slug: string -> string)
    returns (article: Option<ScrapedArticle>)
    ensures article == ScrapeArticle(net, url, maxRetries, u, slug)
  {
    var outcome, _, _ := FetchWithRetry(net, url, maxRetries);
    if !outcome.Received? {
      return None;
    }
    var page := outcome.page;
    if page.titleNodes == [] {
      return None;
    }
    var titleText := TitleText(page.titleNodes[0]);
    var content := SelectContent(page);
    if !Truthy(content) {
      if BodySelector !in page.firstText {
        return None;
      }
      content := ExtractText(page.firstText[BodySelector]);
    }
    content := CleanContent(content, u);
    article := Some(ScrapedArticle(Trim(titleText, PhpTrimSet), url, content, slug(titleText)));
  }

  // ---------------------------------------------------------------- the whole scrape

  /** The network as the scraper sees it: the listing is fetched from `BaseUrl`, every article from its own URL. */
  datatype Web = Web(listing: Network<ListingPage>, article: Network<ArticlePage>)

  /** The `foreach` filter: a record is kept when it exists and its title and content are truthy. */
  predicate Accepted(a: Option<ScrapedArticle>) {
    a.Some? && Truthy(a.value.title) && Truthy(a.value.content)
  }

  function Collect(net: Network<ArticlePage>, urls: seq<string>, maxRetries: int, u: UnicodeClasses, slug: string -> string): (r: seq<ScrapedArticle>)
    ensures |r| <= |urls|
  {
    if urls == [] then []
    else
      var a := ScrapeArticle(net, urls[0], maxRetries, u, slug);
      (if Accepted(a) then [a.value] else []) + Collect(net, urls[1..], maxRetries, u, slug)
  }

  /** The raw link list of the listing page, or `None` when the listing fetch or the link walk throws. */
  function Discover(web: Web, maxRetries: int): Option<seq<string>> {
    var f := RetryFrom(web.listing, BaseUrl, maxRetries, 1);
    if !f.outcome.Received? then None
    else match Links(BaseUrl, ArticleElements(f.outcome.page))
      case Err(_) => None
      case Ok(links) => Some(links)
  }

  /** What `scrapeOldestArticles($limit)` returns. */
  function ScrapeOldest(web: Web, maxRetries: int, limit: int, u: UnicodeClasses, slug: string -> string): (r: seq<ScrapedArticle>)
    ensures limit >= 0 ==> |r| <= limit
  {
    match Discover(web, maxRetries)
    case None => []
    case Some(raw) => Slice(Collect(web.article, Slice(Dedupe(raw), limit), maxRetries, u, slug), limit)
  }

  function Urls(articles: seq<ScrapedArticle>): seq<string> {
    seq(|articles|, i requires 0 <= i < |articles| => articles[i].url)
  }

  /** One step of `Collect`: the head URL's record, when accepted, followed by the rest. */
  lemma CollectStep(net: Network<ArticlePage>, urls: seq<string>, maxRetries: int, u: UnicodeClasses, slug: string -> string)
    requires urls != []
    ensures var a := ScrapeArticle(net, urls[0], maxRetries, u, slug);
            var rest := Collect(net, urls[1..], maxRetries, u, slug);
            Collect(net, urls, maxRetries, u, slug) == if Accepted(a) then [a.value] + rest else rest
  {
  }

  /** Every collected record is accepted and in cleaned shape. */
  lemma {:induction false} CollectAccepted(net: Network<ArticlePage>, urls: seq<string>, maxRetries: int, u: UnicodeClasses, slug: string -> string)
    ensures forall a :: a in Collect(net, urls, maxRetries, u, slug) ==> Truthy(a.title) && Truthy(a.content) && WellShaped(a, u)
  {
    if urls != [] {
      var a := ScrapeArticle(net, urls[0], maxRetries, u, slug);
      var rest := Collect(net, urls[1..], maxRetries, u, slug);
      CollectAccepted(net, urls[1..], maxRetries, u, slug);
      CollectStep(net, urls, maxRetries, u, slug);
      ScrapeArticleShape(net, urls[0], maxRetries, u, slug);
      forall b | b in Collect(net, urls, maxRetries, u, slug) ensures Truthy(b.title) && Truthy(b.content) && WellShaped(b, u) {
        if !(Accepted(a) && b == a.value) { assert b in rest; }
      }
    }
  }

  lemma UrlsCons(x: ScrapedArticle, rest: seq<ScrapedArticle>)
    ensures Urls([x] + rest) == [x.url] + Urls(rest)
  {
  }

  /** The collected records' URLs are a subsequence of the URLs visited. */
  lemma {:induction false} CollectKeepsOrder(net: Network<ArticlePage>, urls: seq<string>, maxRetries: int, u: UnicodeClasses, slug: string -> string)
    ensures IsSubsequence(Urls(Collect(net, urls, maxRetries, u, slug)), urls)
  {
    if urls != [] {
      var a := ScrapeArticle(net, urls[0], maxRetries, u, slug);
      var rest := Collect(net, urls[1..], maxRetries, u, slug);
      CollectKeepsOrder(net, urls[1..], maxRetries, u, slug);
      CollectStep(net, urls, maxRetries, u, slug);
      assert urls == [urls[0]] + urls[1..];
      SubsequenceCons(urls[0], Urls(rest), urls[1..]);
      if Accepted(a) {
        ScrapeArticleShape(net, urls[0], maxRetries, u, slug);
        UrlsCons(a.value, rest);
      }
    }
  }

  /** No accepted record is lost: every visited URL whose scrape is accepted has its record
      among the collected ones. */
  lemma {:induction false} CollectComplete(net: Network<ArticlePage>, urls: seq<string>, maxRetries: int, u: UnicodeClasses, slug: string -> string)
    ensures forall url :: url in urls && Accepted(ScrapeArticle(net, url, maxRetries, u, slug)) ==>
              ScrapeArticle(net, url, maxRetries, u, slug).value in Collect(net, urls, maxRetries, u, slug)
  {
    if urls != [] {
      var rest := Collect(net, urls[1..], maxRetries, u, slug);
      CollectComplete(net, urls[1..], maxRetries, u, slug);
      CollectStep(net, urls, maxRetries, u, slug);
      forall url | url in urls && Accepted(ScrapeArticle(net, url, maxRetries, u, slug))
        ensures ScrapeArticle(net, url, maxRetries, u, slug).value in Collect(net, urls, maxRetries, u, slug)
      {
        if url != urls[0] {
          assert url in urls[1..];
        }
      }
    }
  }

  /** No record is invented: every collected record is the scrape of one of the visited URLs. */
  lemma {:induction false} CollectSound(net: Network<ArticlePage>, urls: seq<string>, maxRetries: int, u: UnicodeClasses, slug: string -> string)
    ensures forall a :: a in Collect(net, urls, maxRetries, u, slug) ==>
              exists url :: url in urls && ScrapeArticle(net, url, maxRetries, u, slug) == Some(a)
  {
    if urls != [] {
      CollectSound(net, urls[1..], maxRetries, u, slug);
      CollectStep(net, urls, maxRetries, u, slug);
      forall a | a in Collect(net, urls, maxRetries, u, slug)
        ensures exists url :: url in urls && ScrapeArticle(net, url, maxRetries, u, slug) == Some(a)
      {
        if a in Collect(net, urls[1..], maxRetries, u, slug) {
          var url :| url in urls[1..] && ScrapeArticle(net, url, maxRetries, u, slug) == Some(a);
          assert url in urls;
        } else {
          assert urls[0] in urls && ScrapeArticle(net, urls[0], maxRetries, u, slug) == Some(a);
        }
      }
    }
  }

  /** Every returned record is the scrape of one of the deduplicated, truncated links. */
  lemma ScrapeOldestSound(web: Web, maxRetries: int, limit: int, u: UnicodeClasses, slug: string -> string)
    ensures Discover(web, maxRetries).Some? ==>
              forall a :: a in ScrapeOldest(web, maxRetries, limit, u, slug) ==>
                exists url :: url in Slice(Dedupe(Discover(web, maxRetries).value), limit)
                              && ScrapeArticle(web.article, url, maxRetries, u, slug) == Some(a)
  {
    if Discover(web, maxRetries).Some? {
      var links := Slice(Dedupe(Discover(web, maxRetries).value), limit);
      var all := Collect(web.article, links, maxRetries, u, slug);
      CollectSound(web.article, links, maxRetries, u, slug);
      forall a | a in Slice(all, limit) ensures a in all {
        var k :| 0 <= k < |Slice(all, limit)| && Slice(all, limit)[k] == a;
        assert all[k] == a;
      }
    }
  }

  /** For a non-negative limit, the scrape keeps every accepted record of the links it
      visits: the deduplicated link list cut to `limit` entries. */
  lemma ScrapeOldestComplete(web: Web, maxRetries: int, limit: int, u: UnicodeClasses, slug: string -> string)
    ensures Discover(web, maxRetries).Some? && limit >= 0 ==>
              forall url :: url in Slice(Dedupe(Discover(web, maxRetries).value), limit)
                            && Accepted(ScrapeArticle(web.article, url, maxRetries, u, slug)) ==>
                 ScrapeArticle(web.article, url, maxRetries, u, slug).value in ScrapeOldest(web, maxRetries, limit, u, slug)
  {
    if Discover(web, maxRetries).Some? && limit >= 0 {
      var links := Slice(Dedupe(Discover(web, maxRetries).value), limit);
      var all := Collect(web.article, links, maxRetries, u, slug);
      CollectComplete(web.article, links, maxRetries, u, slug);
      assert Slice(all, limit) == all;
    }
  }

  /** The scrape returns at most `limit` records (for a non-negative limit), each with a truthy
      title and content in cleaned shape, each the scrape of one of the deduplicated and
      truncated links, with distinct URLs that keep the order of that link list, and, for a
      non-negative limit, with every accepted record of that list; it returns nothing when the
      listing fails. */
  lemma ScrapeOldestCorrect(web: Web, maxRetries: int, limit: int, u: UnicodeClasses, slug: string -> string)
    ensures var r := ScrapeOldest(web, maxRetries, limit, u, slug);
            && (Discover(web, maxRetries).None? ==> r == [])
            && (limit >= 0 ==> |r| <= limit)
            && (forall a :: a in r ==> Truthy(a.title) && Truthy(a.content) && WellShaped(a, u))
            && NoDups(Urls(r))
            && (Discover(web, maxRetries).Some? ==>
                  IsSubsequence(Urls(r), Slice(Dedupe(Discover(web, maxRetries).value), limit)))
            && (Discover(web, maxRetries).Some? ==>
                  forall a :: a in r ==>
                    exists url :: url in Slice(Dedupe(Discover(web, maxRetries).value), limit)
                                  && ScrapeArticle(web.article, url, maxRetries, u, slug) == Some(a))
            && (Discover(web, maxRetries).Some? && limit >= 0 ==>
                  forall url :: url in Slice(Dedupe(Discover(web, maxRetries).value), limit)
                                && Accepted(ScrapeArticle(web.article, url, maxRetries, u, slug)) ==>
                     ScrapeArticle(web.article, url, maxRetries, u, slug).value in r)
  {
    ScrapeOldestSound(web, maxRetries, limit, u, slug);
    ScrapeOldestComplete(web, maxRetries, limit, u, slug);
    if Discover(web, maxRetries).Some? {
      var raw := Discover(web, maxRetries).value;
      var links := Slice(Dedupe(raw), limit);
      var all := Collect(web.article, links, maxRetries, u, slug);
      var r := Slice(all, limit);
      CollectAccepted(web.article, links, maxRetries, u, slug);
      CollectKeepsOrder(web.article, links, maxRetries, u, slug);
      assert Urls(r) == Urls(all)[..|r|];
      SliceIsSubsequence(Urls(all), 0, |r|);
      SubsequenceTransitive(Urls(r), Urls(all), links);
      DedupeCorrect(raw);
      SliceIsSubsequence(Dedupe(raw), 0, |links|);
      SubsequenceNoDups(links, Dedupe(raw));
      SubsequenceNoDups(Urls(r), links);
      forall a | a in r ensures a in all { }
    }
  }

  /** `scrapeOldestArticles($limit)`: fetch the listing, walk its link nodes, deduplicate and
      truncate the links, then scrape them one by one. */
  method ScrapeOldestArticles(web: Web, maxRetries: int, limit: int, u: UnicodeClasses, slug: string -> string)
    returns (articles: seq<ScrapedArticle>)
    ensures articles == ScrapeOldest(web, maxRetries, limit, u, slug)
  {
    var outcome, _, _ := FetchWithRetry(web.listing, BaseUrl, maxRetries);
    if !outcome.Received? {
      return [];
    }
    var found := ExtractLinks(BaseUrl, ArticleElements(outcome.page));
    if found.Err? {
      return [];
    }
    var links := Slice(Dedupe(found.value), limit);
    articles := [];
    var i := 0;
    while i < |links|
      invariant 0 <= i <= |links|
      invariant articles + Collect(web.article, links[i..], maxRetries, u, slug) == Collect(web.article, links, maxRetries, u, slug)
    {
      ghost var rest := Collect(web.article, links[i + 1..], maxRetries, u, slug);
      assert links[i..][0] == links[i] && links[i..][1..] == links[i + 1..];
      CollectStep(web.article, links[i..], maxRetries, u, slug);
      var a := ScrapeArticleContent(web.article, links[i], maxRetries, u, slug);
      if Accepted(a) {
        ConcatAssoc(articles, [a.value], rest);
        articles := articles + [a.value];
      }
      i := i + 1;
    }
    assert links[i..] == [];
    assert articles + [] == articles;
    articles := Slice(articles, limit);
  }
}

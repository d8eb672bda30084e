/** The exit codes of an Artisan command. */
module Console {
  /** `Command::SUCCESS` (0) and `Command::FAILURE` (1). */
  datatype ExitCode = Success | Failure

  function Number(c: ExitCode): int {
    match c
    case Success => 0
    case Failure => 1
  }
}

/** `scrape:articles`: run the scraper, then store each record whose slug is not yet taken. */
module ScrapeCommand {
  import opened Wrappers
  import opened Text
  import opened Articles
  import Scraper
  import opened Console

  /** The attributes `Article::create` receives for a scraped record. */
  function ScrapedDraft(a: Scraper.ScrapedArticle): Draft {
    Draft(a.title, a.slug, a.url, a.content, None, None, "original")
  }

  /** The table after the save loop over `items`: a record whose slug is already in the table
      (stored before the run or earlier in it) is skipped, any other one is inserted under the
      next id. */
  function SaveAll(rows: seq<Article>, nextId: nat, items: seq<Scraper.ScrapedArticle>, now: int): (r: seq<Article>)
    ensures |rows| <= |r| <= |rows| + |items|
    ensures rows <= r
    decreases |items|
  {
    if items == [] then rows
    else if SlugTaken(rows, items[0].slug) then SaveAll(rows, nextId, items[1..], now)
    else SaveAll(rows + [Materialize(ScrapedDraft(items[0]), nextId, now)], nextId + 1, items[1..], now)
  }

  lemma SaveAllStep(rows: seq<Article>, nextId: nat, items: seq<Scraper.ScrapedArticle>, now: int)
    requires items != []
    ensures SaveAll(rows, nextId, items, now) ==
              if SlugTaken(rows, items[0].slug) then SaveAll(rows, nextId, items[1..], now)
              else SaveAll(rows + [Materialize(ScrapedDraft(items[0]), nextId, now)], nextId + 1, items[1..], now)
  {
  }

  /** The save loop keeps the old rows and every table constraint (in particular distinct slugs),
      adds at most one row per record, leaves every record's slug in the table, and each added
      row is an `original` row built from one of the records under the next ids in turn. */
  lemma SaveAllCorrect(rows: seq<Article>, nextId: nat, items: seq<Scraper.ScrapedArticle>, now: int)
    requires Consistent(rows) && forall a :: a in rows ==> a.id < nextId
    ensures var r := SaveAll(rows, nextId, items, now);
            && |rows| <= |r| <= |rows| + |items| && r[..|rows|] == rows
            && Consistent(r)
            && (forall a :: a in r ==> a.id < nextId + |r| - |rows|)
            && (forall item :: item in items ==> SlugTaken(r, item.slug))
            && (forall k :: |rows| <= k < |r| ==>
                  && r[k].id == nextId + k - |rows|
                  && r[k].status == Original && r[k].generatedFromId == None && r[k].generatedContent == None
                  && exists item :: item in items && r[k] == Materialize(ScrapedDraft(item), r[k].id, now))
  {
    SaveAllConsistent(rows, nextId, items, now);
    SaveAllTakesSlugs(rows, nextId, items, now);
    SaveAllNewRows(rows, nextId, items, now);
  }

  lemma {:induction false} SaveAllConsistent(rows: seq<Article>, nextId: nat, items: seq<Scraper.ScrapedArticle>, now: int)
    requires Consistent(rows) && forall a :: a in rows ==> a.id < nextId
    ensures var r := SaveAll(rows, nextId, items, now);
            Consistent(r) && forall a :: a in r ==> a.id < nextId + |r| - |rows|
    decreases |items|
  {
    if items != [] {
      var item := items[0];
      if SlugTaken(rows, item.slug) {
        SaveAllConsistent(rows, nextId, items[1..], now);
      } else {
        InsertKeepsConsistent(rows, ScrapedDraft(item), nextId, now);
        SaveAllConsistent(rows + [Materialize(ScrapedDraft(item), nextId, now)], nextId + 1, items[1..], now);
      }
    }
  }

  /** After the loop every record's slug is in the table. */
  lemma {:induction false} SaveAllTakesSlugs(rows: seq<Article>, nextId: nat, items: seq<Scraper.ScrapedArticle>, now: int)
    ensures var r := SaveAll(rows, nextId, items, now);
            forall item :: item in items ==> SlugTaken(r, item.slug)
    decreases |items|
  {
    if items != [] {
      var item := items[0];
      var next := if SlugTaken(rows, item.slug) then rows else rows + [Materialize(ScrapedDraft(item), nextId, now)];
      var nextId' := if SlugTaken(rows, item.slug) then nextId else nextId + 1;
      SaveAllTakesSlugs(next, nextId', items[1..], now);
      var r := SaveAll(rows, nextId, items, now);
      assert r == SaveAll(next, nextId', items[1..], now);
      assert SlugTaken(next, item.slug) by {
        if !SlugTaken(rows, item.slug) {
          assert next[|rows|] in next;
        }
      }
      assert SlugTaken(r, item.slug) by {
        var a :| a in next && a.slug == item.slug;
        var k :| 0 <= k < |next| && next[k] == a;
        assert r[k] == next[k];
      }
      forall x | x in items ensures SlugTaken(r, x.slug) {
        if x != item {
          assert x in items[1..];
        }
      }
    }
  }

  /** Each added row is an `original` row built from one of the records, under the next ids in turn. */
  lemma {:induction false} SaveAllNewRows(rows: seq<Article>, nextId: nat, items: seq<Scraper.ScrapedArticle>, now: int)
    ensures var r := SaveAll(rows, nextId, items, now);
            forall k :: |rows| <= k < |r| ==>
              && r[k].id == nextId + k - |rows|
              && r[k].status == Original && r[k].generatedFromId == None && r[k].generatedContent == None
              && exists item :: item in items && r[k] == Materialize(ScrapedDraft(item), r[k].id, now)
    decreases |items|
  {
    if items != [] {
      var item := items[0];
      var next := if SlugTaken(rows, item.slug) then rows else rows + [Materialize(ScrapedDraft(item), nextId, now)];
      var nextId' := if SlugTaken(rows, item.slug) then nextId else nextId + 1;
      SaveAllNewRows(next, nextId', items[1..], now);
      var r := SaveAll(rows, nextId, items, now);
      assert r == SaveAll(next, nextId', items[1..], now);
      forall k | |rows| <= k < |r|
        ensures r[k].id == nextId + k - |rows|
        ensures r[k].status == Original && r[k].generatedFromId == None && r[k].generatedContent == None
        ensures exists x :: x in items && r[k] == Materialize(ScrapedDraft(x), r[k].id, now)
      {
        if k < |next| {
          assert r[k] == next[k];
          assert item in items;
        } else {
          var x :| x in items[1..] && r[k] == Materialize(ScrapedDraft(x), r[k].id, now);
          assert x in items;
        }
      }
    }
  }

  /** One pass of the `foreach`: skip a record whose slug exists, otherwise create its row. */
  method SaveArticle(t: Table, a: Scraper.ScrapedArticle, now: int) returns (saved: bool)
    requires t.Valid()
    modifies t
    ensures t.Valid()
    ensures saved <==> !SlugTaken(old(t.rows), a.slug)
    ensures saved ==> t.rows == old(t.rows) + [Materialize(ScrapedDraft(a), old(t.nextId), now)] && t.nextId == old(t.nextId) + 1
    ensures !saved ==> t.rows == old(t.rows) && t.nextId == old(t.nextId)
  {
    if SlugTaken(t.rows, a.slug) {
      // "Article already exists"
      return false;
    }
    var id := t.Insert(ScrapedDraft(a), now);
    saved := id.Some?;
  }

  /** The `foreach` over the scraped records, counting the rows it creates. */
  method SaveArticles(t: Table, articles: seq<Scraper.ScrapedArticle>, now: int) returns (saved: nat)
    requires t.Valid()
    modifies t
    ensures t.Valid()
    ensures t.rows == SaveAll(old(t.rows), old(t.nextId), articles, now)
    ensures saved == |t.rows| - |old(t.rows)| && saved <= |articles| && t.nextId == old(t.nextId) + saved
  {
    ghost var rows0, next0 := t.rows, t.nextId;
    ghost var target := SaveAll(rows0, next0, articles, now);
    saved := 0;
    var i := 0;
    while i < |articles|
      invariant 0 <= i <= |articles|
      invariant t.Valid()
      invariant |t.rows| == |rows0| + saved && t.nextId == next0 + saved
      invariant target == SaveAll(t.rows, t.nextId, articles[i..], now)
    {
      assert articles[i..][0] == articles[i] && articles[i..][1..] == articles[i + 1..];
      SaveAllStep(t.rows, t.nextId, articles[i..], now);
      var ok := SaveArticle(t, articles[i], now);
      if ok {
        saved := saved + 1;
      }
      i := i + 1;
    }
    assert articles[i..] == [];
    SaveAllCorrect(rows0, next0, articles, now);
  }

  /** `handle`: an empty scrape fails without touching the table; otherwise the records are saved
      and the command succeeds, whatever `saved` ends at. */
  method Handle(t: Table, web: Scraper.Web, maxRetries: int, limit: int, u: UnicodeClasses, slug: string -> string, now: int)
    returns (code: ExitCode, saved: nat)
    requires t.Valid()
    modifies t
    ensures t.Valid()
    ensures var scraped := Scraper.ScrapeOldest(web, maxRetries, limit, u, slug);
            && (scraped == [] ==> code == Failure && saved == 0 && t.rows == old(t.rows) && t.nextId == old(t.nextId))
            && (scraped != [] ==>
                  && code == Success
                  && t.rows == SaveAll(old(t.rows), old(t.nextId), scraped, now)
                  && saved == |t.rows| - |old(t.rows)| && saved <= |scraped|
                  && t.nextId == old(t.nextId) + saved)
  {
    var articles := Scraper.ScrapeOldestArticles(web, maxRetries, limit, u, slug);
    if articles == [] {
      // "No articles found to scrape."
      return Failure, 0;
    }
    saved := SaveArticles(t, articles, now);
    code := Success;
  }
}

/** `process:latest`: pick the oldest original row without a generated version and store a
    simulated rewrite of it. */
module ProcessCommand {
  import opened Wrappers
  import opened Text
  import opened Articles
  import opened Console

  const TitleSuffix: string := " (AI Rewritten)"
  const SlugSource: string := " ai rewritten"
  const SimulatedRewrite: string := "This is a simulated AI rewrite of the article."

  /** The attributes of the generated row; `slug` is `Str::slug` and `now` is `time()`. */
  function DerivedDraft(a: Article, slug: string -> string, now: nat): (d: Draft)
    ensures StartsWith(d.title, a.title) && d.title != a.title
    ensures d.originalUrl == a.originalUrl && d.originalContent == a.originalContent && d.generatedFromId == Some(a.id)
  {
    Draft(a.title + TitleSuffix, slug(a.title + SlugSource) + "-" + Decimal(now), a.originalUrl,
          a.originalContent, Some(SimulatedRewrite), Some(a.id), "generated")
  }

  /** How `handle` ends: `FAILURE` when nothing is left to process, `SUCCESS` with the new row's
      id, or the database's unique-slug error escaping the command. */
  datatype Outcome = NothingToProcess | Created(id: nat) | SlugClash

  function ExitCodeOf(o: Outcome): Option<ExitCode> {
    match o
    case NothingToProcess => Some(Failure)
    case Created(_) => Some(Success)
    case SlugClash => None
  }

  /** After a row is processed it is no longer a candidate, the generated row never is one, and
      every other candidate stays a candidate; the generated row carries the suffixed title, the
      source's URL and content, a link to the source and the `generated` status. */
  lemma ProcessedIsNoLongerCandidate(rows: seq<Article>, nextId: nat, slug: string -> string, now: nat)
    requires Consistent(rows) && forall a :: a in rows ==> a.id < nextId
    requires LatestUngenerated(rows).Some?
    ensures var a := LatestUngenerated(rows).value;
            var n := Materialize(DerivedDraft(a, slug, now), nextId, now);
            var r := rows + [n];
            && n.title == a.title + TitleSuffix && n.generatedFromId == Some(a.id) && n.status == Generated
            && n.originalUrl == a.originalUrl && n.originalContent == a.originalContent
            && !Candidate(r, a) && !Candidate(r, n)
            && forall b :: Candidate(r, b) <==> Candidate(rows, b) && b != a
  {
    var a := LatestUngenerated(rows).value;
    var n := Materialize(DerivedDraft(a, slug, now), nextId, now);
    var r := rows + [n];
    assert n in r && n.generatedFromId == Some(a.id);
    forall b ensures Candidate(r, b) <==> Candidate(rows, b) && b != a {
      if Candidate(rows, b) && b != a {
        assert b.id != a.id by {
          var i :| 0 <= i < |rows| && rows[i] == a;
          var j :| 0 <= j < |rows| && rows[j] == b;
        }
        assert b in r;
        assert !HasGeneratedVersion(r, b) by {
          forall c | c in r ensures c.generatedFromId != Some(b.id) {
            if c != n {
              assert c in rows;
            }
          }
        }
      }
      if Candidate(r, b) {
        assert b != n;
        assert b in rows;
        assert !HasGeneratedVersion(rows, b) by {
          forall c | c in rows ensures c.generatedFromId != Some(b.id) {
            assert c in r;
          }
        }
      }
    }
  }

  /** `handle`: the selection, then one `Article::create`. */
  method Handle(t: Table, slug: string -> string, now: nat) returns (outcome: Outcome)
    requires t.Valid()
    modifies t
    ensures t.Valid()
    ensures LatestUngenerated(old(t.rows)).None? ==>
              outcome == NothingToProcess && t.rows == old(t.rows) && t.nextId == old(t.nextId)
    ensures LatestUngenerated(old(t.rows)).Some? ==>
              var d := DerivedDraft(LatestUngenerated(old(t.rows)).value, slug, now);
              && (SlugTaken(old(t.rows), d.slug) ==>
                    outcome == SlugClash && t.rows == old(t.rows) && t.nextId == old(t.nextId))
              && (!SlugTaken(old(t.rows), d.slug) ==>
                    && outcome == Created(old(t.nextId))
                    && t.rows == old(t.rows) + [Materialize(d, old(t.nextId), now)]
                    && t.nextId == old(t.nextId) + 1)
  {
    var article := LatestUngenerated(t.rows);
    if article.None? {
      return NothingToProcess;
    }
    var d := DerivedDraft(article.value, slug, now);
    assert HasId(t.rows, article.value.id);
    var id := t.Insert(d, now);
    if id.None? {
      return SlugClash;
    }
    outcome := Created(id.value);
  }
}

/**
 * The read-only `articles` handlers (rise-backend/api/routes/articles.py):
 * the published articles of a language, most recently updated first, and
 * one published article by slug.
 */
module Articles {
  import opened Wrappers
  import opened Store
  import opened Text
  import opened Sorting
  import opened Schema

  /** The language both handlers use when `lang` is not in the query string. */
  const DefaultLang: string := "en"

  function Lang(lang: Option<string>): string
  {
    lang.GetOr(DefaultLang)
  }

  /** Published (is_published is true, not merely truthy) and written in language l. */
  function Visible(l: string): Article -> bool
  {
    (a: Article) => a.isPublished == Some(true) && a.language == Some(l)
  }

  /** The sort key `x.get('updated_at') or ''`. */
  function UpdatedKey(a: Article): string
  {
    a.updatedAt.GetOr("")
  }

  /** The filter {'slug': s, 'language': l}. */
  function SlugIn(s: string, l: string): Article -> bool
  {
    (a: Article) => a.slug == s && a.language == Some(l)
  }

  function SlugLang(a: Article): (string, Option<string>)
  {
    (a.slug, a.language)
  }

  /**
   * get_all_articles: the visible articles, latest updated_at first; articles
   * with equal keys keep table order.
   */
  function GetAllArticles(t: seq<Article>, lang: Option<string>): (r: seq<Article>)
    ensures multiset(r) == multiset(Where(t, Visible(Lang(lang))))
    ensures SortedDesc(r, UpdatedKey)
    ensures StableFor(r, Where(t, Visible(Lang(lang))), UpdatedKey)
  {
    var rows := Where(t, Visible(Lang(lang)));
    SortDescSorted(rows, UpdatedKey);
    SortDescStable(rows, UpdatedKey);
    SortDesc(rows, UpdatedKey)
  }

  /** The list holds exactly the visible articles. */
  lemma ListedMembers(t: seq<Article>, lang: Option<string>)
    ensures forall a :: a in GetAllArticles(t, lang) <==> a in t && Visible(Lang(lang))(a)
  {
    var rows := Where(t, Visible(Lang(lang)));
    var r := GetAllArticles(t, lang);
    WhereMembers(t, Visible(Lang(lang)));
    forall a ensures a in r <==> a in rows {
      assert a in r <==> a in multiset(r);
      assert a in rows <==> a in multiset(rows);
    }
  }

  /**
   * get_article: without a slug, the 400 reply; else the first article with
   * that slug and language, when it is published; else not found.
   */
  function GetArticle(t: seq<Article>, slug: Option<string>, lang: Option<string>): (r: Reply<Article>)
    ensures !GivenText(slug) <==> r == BadRequest("slug required")
    ensures r.Ok? || r.BadRequest? || r == NotFound("Article not found")
    ensures r.Ok? ==>
              var i := FirstIndex(t, SlugIn(slug.value, Lang(lang)));
              i < |t| && r.value == t[i] && r.value.slug == slug.value && Visible(Lang(lang))(r.value)
    ensures GivenText(slug) && (forall i :: 0 <= i < |t| ==> !(t[i].slug == slug.value && Visible(Lang(lang))(t[i])))
            ==> r == NotFound("Article not found")
    ensures GivenText(slug) ==>
              (r.Ok? <==> var i := FirstIndex(t, SlugIn(slug.value, Lang(lang)));
                          i < |t| && Visible(Lang(lang))(t[i]))
  {
    if !GivenText(slug) then BadRequest("slug required")
    else
      var l := Lang(lang);
      var row := SelectOne(t, SlugIn(slug.value, l));
      if row.None? || row.value.isPublished != Some(true) || row.value.language != Some(l) then NotFound("Article not found")
      else Ok(row.value)
  }

  /**
   * When (slug, language) identifies an article, get_article finds a slug
   * exactly when get_all_articles lists an article with that slug, and it
   * answers that very article.
   */
  lemma FoundIffListed(t: seq<Article>, s: string, lang: Option<string>)
    requires s != ""
    requires UniqueBy(t, SlugLang)
    ensures GetArticle(t, Some(s), lang).Ok? ==> GetArticle(t, Some(s), lang).value in GetAllArticles(t, lang)
    ensures forall a :: a in GetAllArticles(t, lang) && a.slug == s ==> GetArticle(t, Some(s), lang) == Ok(a)
  {
    ListedMembers(t, lang);
    var l := Lang(lang);
    forall a | a in GetAllArticles(t, lang) && a.slug == s
      ensures GetArticle(t, Some(s), lang) == Ok(a)
    {
      var i :| 0 <= i < |t| && t[i] == a;
      SelectOneUnique(t, SlugLang, (s, Some(l)), SlugIn(s, l), i);
    }
  }
}
